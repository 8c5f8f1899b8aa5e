// The APK certificate reader of native/src/core/cert.cpp. It scans back from
// the end of the file for the ZIP end-of-central-directory record, follows
// its central-directory offset to the APK signing block that sits just
// before it, checks the block's magic and its two copies of the block size,
// then walks the block's ID-value pairs to the APK Signature Scheme v2 block
// and returns the first certificate of its first signer. Every abort yields
// the empty string.
//
// The file is a byte sequence and the file cursor a position in it. A read
// that would run past the end of the file fails.

module ApkCert {
  import opened Common

  // ---- Little-endian integers ----

  function Pow256(w: nat): (r: nat)
    ensures r >= 1
  {
    if w == 0 then 1 else 256 * Pow256(w - 1)
  }

  lemma Pow256Widths()
    ensures Pow256(2) == 0x1_0000 && Pow256(4) == 0x1_0000_0000 && Pow256(8) == 0x1_0000_0000_0000_0000
  {
    assert Pow256(4) == 0x1_0000_0000 by {
      assert Pow256(2) == 0x1_0000;
    }
  }

  /** The unsigned little-endian value of bs. */
  function LE(bs: seq<byte>): nat {
    if |bs| == 0 then 0 else bs[0] as nat + 256 * LE(bs[1..])
  }

  /** The w-byte little-endian encoding of v, wrapped to w bytes. */
  function ToLE(v: nat, w: nat): (r: seq<byte>)
    ensures |r| == w
  {
    if w == 0 then [] else [(v % 256) as byte] + ToLE(v / 256, w - 1)
  }

  /** A w-byte little-endian value is below 256^w. */
  lemma {:induction false} LEBound(bs: seq<byte>)
    ensures LE(bs) < Pow256(|bs|)
  {
    if |bs| > 0 {
      LEBound(bs[1..]);
    }
  }

  /** Decoding an encoding gives the value back when it fits in the width. */
  lemma {:induction false} LEOfToLE(v: nat, w: nat)
    requires v < Pow256(w)
    ensures LE(ToLE(v, w)) == v
  {
    if w > 0 {
      LEOfToLE(v / 256, w - 1);
      assert ToLE(v, w)[1..] == ToLE(v / 256, w - 1);
    }
  }

  lemma DivMod256(lo: nat, hi: nat)
    requires lo < 256
    ensures (lo + 256 * hi) % 256 == lo && (lo + 256 * hi) / 256 == hi
  {
  }

  /** Encoding a decoded value gives the bytes back. */
  lemma {:induction false} ToLEOfLE(bs: seq<byte>)
    ensures ToLE(LE(bs), |bs|) == bs
  {
    if |bs| > 0 {
      ToLEOfLE(bs[1..]);
      DivMod256(bs[0] as nat, LE(bs[1..]));
      assert bs == [bs[0]] + bs[1..];
    }
  }

  /** read() of a w-byte little-endian integer at pos; None when it would leave the file. */
  function ReadLE(data: seq<byte>, pos: int, w: nat): (r: Option<nat>)
    ensures r.Some? <==> 0 <= pos && pos + w <= |data|
  {
    if 0 <= pos && pos + w <= |data| then
      Some(LE(data[pos..pos + w]))
    else None
  }

  /** The bytes of an ASCII string. */
  function Ascii(s: string): (r: seq<byte>)
    ensures |r| == |s|
  {
    seq(|s|, i requires 0 <= i < |s| => (s[i] as int % 256) as byte)
  }

  const EocdMagic: nat := 0x06054b50
  const V2Magic: nat := 0x7109871a
  const SigningBlockMagic: seq<byte> := Ascii("APK Sig Block 42")
  /** sizeof(EOCD): magic, 8 bytes of padding, two 32-bit fields and the 16-bit comment size. */
  const EocdSize: nat := 22
  /** Comments are at most 0xffff bytes long, so no record sits further back. */
  const MaxComment: nat := 0xffff

  /** A 64-bit unsigned value reinterpreted as off_t. */
  function Signed64(x: nat): (r: int)
    requires x < 0x1_0000_0000_0000_0000
    ensures -0x8000_0000_0000_0000 <= r < 0x8000_0000_0000_0000
    ensures r % 0x1_0000_0000_0000_0000 == x
  {
    if x < 0x8000_0000_0000_0000 then x else x - 0x1_0000_0000_0000_0000
  }

  // ---- What read_certificate computes ----

  /** Why read_certificate returned the empty string, or the certificate it returned. */
  datatype Outcome =
    | Found(cert: seq<byte>)
    | NoEocd
    | TooOld
    | BadMagic
    | SizeMismatch
    | NoV2
    | Truncated
    | OutOfFuel

  /** The string read_certificate returns. */
  function CertOf(o: Outcome): seq<byte> {
    if o.Found? then o.cert else []
  }

  /**
   * The EOCD test for a comment of i bytes: the 16-bit size just before the
   * comment is i, and the 32-bit value 22 bytes before the comment is the magic.
   */
  predicate EocdAt(data: seq<byte>, i: nat) {
    ReadLE(data, |data| - 2 - i, 2) == Some(i) && ReadLE(data, |data| - EocdSize - i, 4) == Some(EocdMagic)
  }

  /** The first comment length from i up that passes the EOCD test. */
  function FindEocdFrom(data: seq<byte>, i: nat): (r: Option<nat>)
    requires i <= MaxComment
    ensures r.Some? ==> i <= r.value <= MaxComment && EocdAt(data, r.value)
    decreases MaxComment - i
  {
    if EocdAt(data, i) then Some(i)
    else if i == MaxComment then None
    else FindEocdFrom(data, i + 1)
  }

  function FindEocd(data: seq<byte>): (r: Option<nat>)
    ensures r.Some? ==> r.value <= MaxComment && EocdAt(data, r.value)
  {
    FindEocdFrom(data, 0)
  }

  /**
   * The pair loop from pos inside a signing block of size blkSz, for at most
   * fuel pairs: Ok(q) when it reaches the v2 pair, whose value starts at q, or
   * the outcome that ends it first.
   */
  function FindV2(data: seq<byte>, pos: nat, blkSz: nat, fuel: nat): (r: Result<nat, Outcome>)
    ensures r.Err? ==> r.error == OutOfFuel || r.error == Truncated || r.error == NoV2
    decreases fuel
  {
    if fuel == 0 then Err(OutOfFuel)
    else match ReadLE(data, pos, 8)
      case None => Err(Truncated)
      case Some(len) =>
        if len == blkSz then Err(NoV2)
        else match ReadLE(data, pos + 8, 4)
          case None => Err(Truncated)
          case Some(id) =>
            if id == V2Magic then Ok(pos + 12)
            else FindV2(data, SkipTarget(pos + 12, len), blkSz, fuel - 1)
  }

  /** The pair walk: the loop, then the certificate of the v2 pair it stops at. */
  function Walk(data: seq<byte>, pos: nat, blkSz: nat, fuel: nat): Outcome {
    match FindV2(data, pos, blkSz, fuel)
    case Err(failure) => failure
    case Ok(q) => V2Cert(data, q)
  }

  /**
   * Where lseek(len - 4, SEEK_CUR) from cur leaves the cursor: the 64-bit
   * difference, taken as off_t, is len - 4 for len below 2^63 + 4 and wraps
   * below zero above that (SkipOffsetIsOffT); a seek before the start or past
   * the largest off_t fails and leaves the cursor where it was.
   */
  function SkipTarget(cur: nat, len: nat): (r: nat)
    ensures 4 <= len && cur + len - 4 <= MaxOffT ==> r == cur + len - 4
    ensures 4 <= len <= 0x8000_0000_0000_0003 && cur + len - 4 > MaxOffT ==> r == cur
    ensures cur <= MaxOffT ==> r <= MaxOffT
  {
    var target := cur + SkipOffset(len);
    if target < 0 || target > MaxOffT then cur else target
  }

  /** The largest file offset a 64-bit off_t holds. */
  const MaxOffT: nat := 0x7FFF_FFFF_FFFF_FFFF

  function SkipOffset(len: nat): int
  {
    if len < 0x8000_0000_0000_0004 then len - 4 else len - 4 - 0x1_0000_0000_0000_0000
  }

  /** The skip offset is the unsigned 64-bit difference len - 4 reinterpreted as off_t. */
  lemma SkipOffsetIsOffT(len: nat)
    requires len < 0x1_0000_0000_0000_0000
    ensures SkipOffset(len) == Signed64((len - 4) % 0x1_0000_0000_0000_0000)
  {
    if len < 4 {
      assert (len - 4) % 0x1_0000_0000_0000_0000 == len - 4 + 0x1_0000_0000_0000_0000;
    }
  }

  /**
   * The v2 value at q: three 32-bit lengths that are skipped, the length of the
   * digest sequence and the digests, the length of the certificate sequence, and
   * the first certificate with its length.
   */
  function V2Cert(data: seq<byte>, q: nat): Outcome {
    match ReadLE(data, q + 12, 4)
    case None => Truncated
    case Some(digests) =>
      var c := q + 16 + digests;
      match ReadLE(data, c + 4, 4)
      case None => Truncated
      case Some(n) =>
        if c + 8 + n <= |data| then Found(data[c + 8..c + 8 + n]) else Truncated
  }

  /**
   * The checks on the signing block that ends at the central directory offset
   * cdo: its magic, and its size field against the one at its start. Ok gives
   * where the pair walk starts and the block size; a failed check is BadMagic
   * or SizeMismatch.
   */
  function BlockHeader(data: seq<byte>, cdo: nat): (r: Result<(nat, nat), Outcome>)
    requires cdo < 0x1_0000_0000
    ensures r.Err? ==> r.error == BadMagic || r.error == SizeMismatch
  {
    var t := (cdo as int - 24) % 0x1_0000_0000;
    if t + 24 > |data| || data[t + 8..t + 24] != SigningBlockMagic then Err(BadMagic)
    else
      var size8 := LE(data[t..t + 8]);
      var start := BlockStart(cdo, size8, t + 24);
      match ReadLE(data, start, 8)
      case None => Err(SizeMismatch)
      case Some(blkSz) => if blkSz != size8 then Err(SizeMismatch) else Ok((start + 8, blkSz))
  }

  /** The signing block that ends at cdo, and the walk over its pairs. */
  function SigningBlock(data: seq<byte>, cdo: nat, fuel: nat): Outcome
    requires cdo < 0x1_0000_0000
  {
    match BlockHeader(data, cdo)
    case Err(failure) => failure
    case Ok((pos, blkSz)) => Walk(data, pos, blkSz, fuel)
  }

  /**
   * Where lseek(cdo - size8 - 8, SEEK_SET) leaves the cursor: the 64-bit
   * difference taken as off_t (BlockOffsetIsOffT); a negative one fails and
   * leaves the cursor at cur.
   */
  function BlockStart(cdo: nat, size8: nat, cur: nat): (r: nat)
    ensures size8 + 8 <= cdo ==> r == cdo - size8 - 8
  {
    var target := BlockOffset(cdo, size8);
    if target < 0 then cur else target
  }

  function BlockOffset(cdo: nat, size8: nat): int
  {
    var x := cdo - size8 - 8;
    if x >= -0x8000_0000_0000_0000 then x else x + 0x1_0000_0000_0000_0000
  }

  /** The block offset is the unsigned 64-bit difference cdo - size8 - 8 reinterpreted as off_t. */
  lemma BlockOffsetIsOffT(cdo: nat, size8: nat)
    requires size8 < 0x1_0000_0000_0000_0000 && cdo < 0x1_0000_0000
    ensures BlockOffset(cdo, size8) == Signed64((cdo - size8 - 8) % 0x1_0000_0000_0000_0000)
  {
    var x := cdo - size8 - 8;
    if x < -0x1_0000_0000_0000_0000 {
      assert x % 0x1_0000_0000_0000_0000 == x + 2 * 0x1_0000_0000_0000_0000;
    } else if x < -0x8000_0000_0000_0000 {
      assert x % 0x1_0000_0000_0000_0000 == x + 0x1_0000_0000_0000_0000;
    } else if x < 0 {
      assert x % 0x1_0000_0000_0000_0000 == x + 0x1_0000_0000_0000_0000;
    }
  }

  /**
   * read_certificate: the EOCD scan, the version gate on the APK comment
   * (skipped for a negative version), the signing block checks and the pair walk.
   */
  function Extract(data: seq<byte>, version: int, parseInt: seq<byte> -> int, fuel: nat): (r: Outcome)
    ensures r == NoEocd <==> FindEocd(data).None?
  {
    match EocdPos(data)
    case None => NoEocd
    case Some(e) => AfterEocd(data, e, version, parseInt, fuel)
  }

  /** Where the EOCD record the scan finds starts: its comment length i counted back from the end. */
  function EocdPos(data: seq<byte>): (r: Option<nat>)
    ensures r.Some? ==> r.value + EocdSize <= |data| && r.value + EocdSize + LE(data[r.value + 20..r.value + 22]) <= |data|
    ensures r.Some? <==> FindEocd(data).Some?
  {
    match FindEocd(data)
    case None => None
    case Some(i) =>
      EocdBounds(data, i);
      Some(|data| - EocdSize - i)
  }

  /** The rest of read_certificate once the EOCD record is found at e. */
  function AfterEocd(data: seq<byte>, e: nat, version: int, parseInt: seq<byte> -> int, fuel: nat): Outcome
    requires e + EocdSize <= |data| && e + EocdSize + LE(data[e + 20..e + 22]) <= |data|
  {
    var cdo := LE(data[e + 16..e + 20]);
    LEBound(data[e + 16..e + 20]);
    Pow256Widths();
    var commentSz := LE(data[e + 20..e + 22]);
    if version >= 0 && version > parseInt(data[e + 22..e + 22 + commentSz]) then TooOld
    else SigningBlock(data, cdo, fuel)
  }

  /** A record that passes the EOCD test for comment length i sits inside the file, comment included. */
  lemma EocdBounds(data: seq<byte>, i: nat)
    requires EocdAt(data, i)
    ensures var e := |data| - EocdSize - i;
      e >= 0 && e + EocdSize + i == |data| && LE(data[e + 20..e + 22]) == i
  {
    var e := |data| - EocdSize - i;
    assert e + 20 == |data| - 2 - i;
  }

  // ---- The reader, cursor by cursor ----

  /** The EOCD scan loop: offsets 0 to 0xffff from the end, first match wins. */
  method ScanEocd(data: seq<byte>) returns (r: Option<nat>)
    ensures r == EocdPos(data)
  {
    var i := 0;
    while true
      invariant 0 <= i <= MaxComment
      invariant FindEocd(data) == FindEocdFrom(data, i)
      decreases MaxComment - i
    {
      ScanStep(data, i);
      var commentSz := ReadLE(data, |data| - 2 - i, 2);
      if commentSz == Some(i) {
        var magic := ReadLE(data, |data| - EocdSize - i, 4);
        if magic == Some(EocdMagic) {
          return Some(|data| - EocdSize - i);
        }
      }
      if i == MaxComment {
        return None;
      }
      i := i + 1;
    }
  }

  /** One step of the EOCD scan: a match at i is the record EocdPos finds, and a miss moves the scan on. */
  lemma ScanStep(data: seq<byte>, i: nat)
    requires i <= MaxComment && FindEocd(data) == FindEocdFrom(data, i)
    ensures EocdAt(data, i) ==> EocdPos(data) == Some(|data| - EocdSize - i)
    ensures !EocdAt(data, i) && i == MaxComment ==> EocdPos(data) == None
    ensures !EocdAt(data, i) && i < MaxComment ==> FindEocd(data) == FindEocdFrom(data, i + 1)
  {
  }

  /** The ID-value pair loop, run for at most fuel pairs. */
  method WalkPairs(data: seq<byte>, pos: nat, blkSz: nat, fuel: nat) returns (r: Outcome)
    ensures r == Walk(data, pos, blkSz, fuel)
  {
    var cur := pos;
    var left := fuel;
    while left > 0
      invariant FindV2(data, pos, blkSz, fuel) == FindV2(data, cur, blkSz, left)
      decreases left
    {
      var size8 := ReadLE(data, cur, 8);
      if size8.None? {
        return Truncated;
      }
      if size8.value == blkSz {
        return NoV2;
      }
      var id := ReadLE(data, cur + 8, 4);
      if id.None? {
        return Truncated;
      }
      if id.value == V2Magic {
        r := ReadV2(data, cur + 12);
        return;
      }
      cur := SkipTarget(cur + 12, size8.value);
      left := left - 1;
    }
    return OutOfFuel;
  }

  /** The v2 branch: skip to the first certificate and read it. */
  method ReadV2(data: seq<byte>, q: nat) returns (r: Outcome)
    ensures r == V2Cert(data, q)
  {
    var size4 := ReadLE(data, q + 12, 4);
    if size4.None? {
      return Truncated;
    }
    var c := q + 16 + size4.value;
    size4 := ReadLE(data, c + 4, 4);
    if size4.None? {
      return Truncated;
    }
    var n := size4.value;
    if c + 8 + n > |data| {
      return Truncated;
    }
    r := Found(data[c + 8..c + 8 + n]);
  }

  /** read_certificate(fd, version): the first v2 certificate, or the empty string. */
  method ReadCertificate(data: seq<byte>, version: int, parseInt: seq<byte> -> int, fuel: nat) returns (cert: seq<byte>)
    ensures cert == CertOf(Extract(data, version, parseInt, fuel))
  {
    var found := ScanEocd(data);
    if found.None? {
      return [];
    }
    var r := ReadAfterEocd(data, found.value, version, parseInt, fuel);
    cert := CertOf(r);
  }

  /** From the EOCD record on: the central directory offset, the comment gate and the signing block. */
  method ReadAfterEocd(data: seq<byte>, e: nat, version: int, parseInt: seq<byte> -> int, fuel: nat) returns (r: Outcome)
    requires e + EocdSize <= |data| && e + EocdSize + LE(data[e + 20..e + 22]) <= |data|
    ensures r == AfterEocd(data, e, version, parseInt, fuel)
  {
    LEBound(data[e + 16..e + 20]);
    Pow256Widths();
    var cdo := ReadLE(data, e + 16, 4).value;
    if version >= 0 {
      var commentSz := ReadLE(data, e + 20, 2).value;
      var comment := data[e + 22..e + 22 + commentSz];
      if version > parseInt(comment) {
        return TooOld;
      }
    }
    r := ReadSigningBlock(data, cdo, fuel);
  }

  /** From the central directory offset on: the signing block magic, its two sizes, and the pair walk. */
  method ReadSigningBlock(data: seq<byte>, cdo: nat, fuel: nat) returns (r: Outcome)
    requires cdo < 0x1_0000_0000
    ensures r == SigningBlock(data, cdo, fuel)
  {
    var t := (cdo as int - 24) % 0x1_0000_0000;
    if t + 24 > |data| || data[t + 8..t + 24] != SigningBlockMagic {
      return BadMagic;
    }
    var size8 := ReadLE(data, t, 8).value;
    var start := BlockStart(cdo, size8, t + 24);
    var signingBlkSz := ReadLE(data, start, 8);
    if signingBlkSz != Some(size8) {
      return SizeMismatch;
    }
    r := WalkPairs(data, start + 8, size8, fuel);
  }

  // ---- Properties of the scan and the walk ----

  /** The scan from i returns k exactly when k is the first offset from i on that passes the test. */
  lemma {:induction false} FindEocdFromFirst(data: seq<byte>, i: nat, k: nat)
    requires i <= k <= MaxComment
    ensures FindEocdFrom(data, i) == Some(k) <==> EocdAt(data, k) && forall j | i <= j < k :: !EocdAt(data, j)
    decreases k - i
  {
    if i < k && !EocdAt(data, i) {
      FindEocdFromFirst(data, i + 1, k);
    }
  }

  /** The scan finds nothing from i exactly when no offset from i to 0xffff passes the test. */
  lemma {:induction false} FindEocdFromNone(data: seq<byte>, i: nat)
    requires i <= MaxComment
    ensures FindEocdFrom(data, i).None? <==> forall j | i <= j <= MaxComment :: !EocdAt(data, j)
    decreases MaxComment - i
  {
    if i < MaxComment && !EocdAt(data, i) {
      FindEocdFromNone(data, i + 1);
    }
  }

  /** The record read_certificate uses is the one with the shortest comment; with none within 0xffff bytes it gives up. */
  lemma FindEocdFirst(data: seq<byte>)
    ensures FindEocd(data).Some? ==> forall j | 0 <= j < FindEocd(data).value :: !EocdAt(data, j)
    ensures FindEocd(data).None? <==> forall j | 0 <= j <= MaxComment :: !EocdAt(data, j)
  {
    if FindEocd(data).Some? {
      FindEocdFromFirst(data, 0, FindEocd(data).value);
    }
    FindEocdFromNone(data, 0);
  }

  /** Fuel only cuts off walks that would not end: a walk that ends gives the same outcome with more fuel. */
  lemma {:induction false} FindV2Fuel(data: seq<byte>, pos: nat, blkSz: nat, f: nat, g: nat)
    requires f <= g && FindV2(data, pos, blkSz, f) != Err(OutOfFuel)
    ensures FindV2(data, pos, blkSz, g) == FindV2(data, pos, blkSz, f)
    decreases f
  {
    var len := ReadLE(data, pos, 8);
    var id := ReadLE(data, pos + 8, 4);
    if len.Some? && len.value != blkSz && id.Some? && id.value != V2Magic {
      FindV2Fuel(data, SkipTarget(pos + 12, len.value), blkSz, f - 1, g - 1);
    }
  }

  /** More fuel changes nothing once a walk has ended without running out. */
  lemma WalkFuel(data: seq<byte>, pos: nat, blkSz: nat, f: nat, g: nat)
    requires f <= g && Walk(data, pos, blkSz, f) != OutOfFuel
    ensures Walk(data, pos, blkSz, g) == Walk(data, pos, blkSz, f)
  {
    FindV2Fuel(data, pos, blkSz, f, g);
  }

  /** With a negative version the comment is never consulted. */
  lemma NegativeVersionSkipsGate(data: seq<byte>, version: int, parseInt: seq<byte> -> int, fuel: nat)
    requires version < 0
    ensures Extract(data, version, parseInt, fuel) == Extract(data, -1, _ => 0, fuel)
  {
  }

  // ---- A well-formed signed APK ----

  /** x sits at pos in data. */
  predicate IsAt(data: seq<byte>, pos: nat, x: seq<byte>) {
    pos + |x| <= |data| && data[pos..pos + |x|] == x
  }

  lemma IsAtSplit(data: seq<byte>, pos: nat, a: seq<byte>, b: seq<byte>)
    requires IsAt(data, pos, a + b)
    ensures IsAt(data, pos, a) && IsAt(data, pos + |a|, b)
  {
    assert data[pos..pos + |a|] == data[pos..pos + |a| + |b|][..|a|];
    assert data[pos + |a|..pos + |a| + |b|] == data[pos..pos + |a| + |b|][|a|..];
  }

  lemma ReadEncoded(data: seq<byte>, pos: nat, v: nat, w: nat)
    requires IsAt(data, pos, ToLE(v, w)) && v < Pow256(w)
    ensures ReadLE(data, pos, w) == Some(v)
  {
    LEOfToLE(v, w);
  }

  /** An ID-value pair: its 64-bit length counts the 32-bit ID and the value. */
  function Pair(id: nat, value: seq<byte>): seq<byte> {
    ToLE(|value| + 4, 8) + ToLE(id, 4) + value
  }

  function Pairs(ps: seq<(nat, seq<byte>)>): seq<byte> {
    if |ps| == 0 then [] else Pair(ps[0].0, ps[0].1) + Pairs(ps[1..])
  }

  /** How many bytes the pairs ps take: 12 bytes of length and ID per pair, plus its value. */
  function RunSize(ps: seq<(nat, seq<byte>)>): nat {
    if |ps| == 0 then 0 else |ps[0].1| + 12 + RunSize(ps[1..])
  }

  lemma {:induction false} PairsSize(ps: seq<(nat, seq<byte>)>)
    ensures |Pairs(ps)| == RunSize(ps)
  {
    if |ps| > 0 {
      PairsSize(ps[1..]);
    }
  }

  /**
   * The value of a v2 pair as read_certificate reads it: the signer sequence,
   * signer and signed-data lengths (head), the digest sequence with its length,
   * the certificate sequence length, the first certificate with its length, and
   * whatever follows.
   */
  function V2Value(head: seq<byte>, digests: seq<byte>, certSeqLen: seq<byte>, cert: seq<byte>, tail: seq<byte>): seq<byte> {
    head + ToLE(|digests|, 4) + digests + certSeqLen + ToLE(|cert|, 4) + cert + tail
  }

  /** The signing block: its size (everything after the first size field), the pairs, the size again, the magic. */
  function SigningBlockBytes(pairs: seq<byte>): seq<byte> {
    ToLE(|pairs| + 24, 8) + pairs + ToLE(|pairs| + 24, 8) + SigningBlockMagic
  }

  /** The end-of-central-directory record. */
  function EocdBytes(pad: seq<byte>, cdSize: nat, cdo: nat, comment: seq<byte>): seq<byte> {
    ToLE(EocdMagic, 4) + pad + ToLE(cdSize, 4) + ToLE(cdo, 4) + ToLE(|comment|, 2) + comment
  }

  /** A v2-signed APK: the ZIP entries, the signing block, the central directory and the EOCD record. */
  function Apk(zip: seq<byte>, pairs: seq<byte>, cd: seq<byte>, pad: seq<byte>, comment: seq<byte>): seq<byte> {
    zip + SigningBlockBytes(pairs) + cd + EocdBytes(pad, |cd|, |zip| + |SigningBlockBytes(pairs)|, comment)
  }

  /** The v2 branch reads the first certificate out of a v2 value. */
  lemma V2CertReads(data: seq<byte>, q: nat, head: seq<byte>, digests: seq<byte>, certSeqLen: seq<byte>,
                    cert: seq<byte>, tail: seq<byte>)
    requires |head| == 12 && |certSeqLen| == 4 && |data| < 0x1_0000_0000
    requires IsAt(data, q, V2Value(head, digests, certSeqLen, cert, tail))
    ensures V2Cert(data, q) == Found(cert)
  {
    Pow256Widths();
    var a := head + ToLE(|digests|, 4) + digests + certSeqLen + ToLE(|cert|, 4) + cert;
    IsAtSplit(data, q, a, tail);
    var b := head + ToLE(|digests|, 4) + digests + certSeqLen + ToLE(|cert|, 4);
    IsAtSplit(data, q, b, cert);
    var c := head + ToLE(|digests|, 4) + digests + certSeqLen;
    IsAtSplit(data, q, c, ToLE(|cert|, 4));
    ReadEncoded(data, q + |c|, |cert|, 4);
    var d := head + ToLE(|digests|, 4);
    IsAtSplit(data, q, d + digests, certSeqLen);
    IsAtSplit(data, q, d, digests);
    IsAtSplit(data, q, head, ToLE(|digests|, 4));
    ReadEncoded(data, q + 12, |digests|, 4);
  }

  /** At pos sits a pair that is not v2, of length len, and the walk goes past it. */
  predicate SkipsOver(data: seq<byte>, pos: nat, blkSz: nat, len: nat, id: nat) {
    ReadLE(data, pos, 8) == Some(len) && len != blkSz && 4 <= len < 0x1_0000_0000 &&
    pos + 8 + len <= MaxOffT &&
    ReadLE(data, pos + 8, 4) == Some(id) && id != V2Magic
  }

  /** The pairs ps follow each other from pos, none of them v2. */
  predicate NonV2Run(data: seq<byte>, pos: nat, blkSz: nat, ps: seq<(nat, seq<byte>)>)
    decreases |ps|
  {
    |ps| == 0 ||
    (SkipsOver(data, pos, blkSz, |ps[0].1| + 4, ps[0].0) &&
     NonV2Run(data, pos + |ps[0].1| + 12, blkSz, ps[1..]))
  }

  /** A pair other than v2, written out at pos, is one the walk skips. */
  lemma PairSkipped(data: seq<byte>, pos: nat, blkSz: nat, id: nat, value: seq<byte>, rest: seq<byte>)
    requires |data| < 0x1_0000_0000 && IsAt(data, pos, Pair(id, value) + rest)
    requires id != V2Magic && id < 0x1_0000_0000 && |value| + 4 != blkSz
    ensures SkipsOver(data, pos, blkSz, |value| + 4, id)
    ensures IsAt(data, pos + |Pair(id, value)|, rest)
  {
    Pow256Widths();
    IsAtSplit(data, pos, Pair(id, value), rest);
    IsAtSplit(data, pos, ToLE(|value| + 4, 8) + ToLE(id, 4), value);
    IsAtSplit(data, pos, ToLE(|value| + 4, 8), ToLE(id, 4));
    ReadEncoded(data, pos, |value| + 4, 8);
    ReadEncoded(data, pos + 8, id, 4);
  }

  /** Every ID in ps is a 32-bit ID other than the v2 one. */
  predicate OtherIds(ps: seq<(nat, seq<byte>)>) {
    forall k | 0 <= k < |ps| :: ps[k].0 != V2Magic && ps[k].0 < 0x1_0000_0000
  }

  /** Pairs other than v2, written out one after another, form a run the walk skips. */
  lemma {:induction false} PairsSkipped(data: seq<byte>, pos: nat, blkSz: nat, ps: seq<(nat, seq<byte>)>, rest: seq<byte>)
    requires |data| < 0x1_0000_0000 && IsAt(data, pos, Pairs(ps) + rest) && |Pairs(ps)| < blkSz
    requires OtherIds(ps)
    ensures NonV2Run(data, pos, blkSz, ps)
    ensures IsAt(data, pos + |Pairs(ps)|, rest)
    decreases |ps|
  {
    if |ps| > 0 {
      var p := Pair(ps[0].0, ps[0].1);
      var more := Pairs(ps[1..]);
      assert Pairs(ps) + rest == p + (more + rest);
      PairSkipped(data, pos, blkSz, ps[0].0, ps[0].1, more + rest);
      assert |p| == |ps[0].1| + 12;
      assert forall k | 0 <= k < |ps[1..]| :: ps[1..][k] == ps[k + 1];
      PairsSkipped(data, pos + |p|, blkSz, ps[1..], rest);
    }
  }

  /** The loop passes over one pair other than v2 with one unit of fuel. */
  lemma SkipsPair(data: seq<byte>, pos: nat, blkSz: nat, fuel: nat, len: nat, id: nat, next: nat)
    requires SkipsOver(data, pos, blkSz, len, id) && 0 < fuel && next == pos + 8 + len
    ensures FindV2(data, pos, blkSz, fuel) == FindV2(data, next, blkSz, fuel - 1)
  {
    assert SkipTarget(pos + 12, len) == next;
  }

  /**
   * A pair whose forward skip would pass the largest off_t leaves the cursor
   * after its ID, where the loop reads the next pair header.
   */
  lemma SkipPastOffTStays(data: seq<byte>, pos: nat, blkSz: nat, fuel: nat, len: nat, id: nat)
    requires ReadLE(data, pos, 8) == Some(len) && len != blkSz && 0 < fuel
    requires ReadLE(data, pos + 8, 4) == Some(id) && id != V2Magic
    requires 4 <= len <= 0x8000_0000_0000_0003 && pos + 8 + len > MaxOffT
    ensures FindV2(data, pos, blkSz, fuel) == FindV2(data, pos + 12, blkSz, fuel - 1)
  {
    assert SkipTarget(pos + 12, len) == pos + 12;
  }

  /** The loop passes over a run of pairs none of which is v2, one unit of fuel each. */
  lemma {:induction false} SkipsRun(data: seq<byte>, pos: nat, blkSz: nat, fuel: nat, ps: seq<(nat, seq<byte>)>,
                                   end: nat, left: nat)
    requires NonV2Run(data, pos, blkSz, ps) && |ps| <= fuel
    requires end == pos + RunSize(ps) && left == fuel - |ps|
    ensures FindV2(data, pos, blkSz, fuel) == FindV2(data, end, blkSz, left)
    decreases |ps|
  {
    if |ps| > 0 {
      var q := pos + |ps[0].1| + 12;
      SkipsPair(data, pos, blkSz, fuel, |ps[0].1| + 4, ps[0].0, q);
      SkipsRun(data, q, blkSz, fuel - 1, ps[1..], end, left);
    }
  }

  lemma IsAtWhole(data: seq<byte>)
    ensures IsAt(data, 0, data)
  {
    assert data[0..|data|] == data;
  }

  /** The EOCD record at the end of a file passes the test for its own comment and gives back its fields. */
  lemma EocdReads(pre: seq<byte>, pad: seq<byte>, cdSize: nat, cdo: nat, comment: seq<byte>)
    requires |pad| == 8 && cdSize < 0x1_0000_0000 && cdo < 0x1_0000_0000 && |comment| <= MaxComment
    ensures var data := pre + EocdBytes(pad, cdSize, cdo, comment);
      EocdAt(data, |comment|) && |data| - EocdSize - |comment| == |pre| &&
      LE(data[|pre| + 16..|pre| + 20]) == cdo && LE(data[|pre| + 20..|pre| + 22]) == |comment| &&
      data[|pre| + 22..|pre| + 22 + |comment|] == comment
  {
    Pow256Widths();
    var data := pre + EocdBytes(pad, cdSize, cdo, comment);
    var e := |pre|;
    IsAtWhole(data);
    IsAtSplit(data, 0, pre, EocdBytes(pad, cdSize, cdo, comment));
    var a := ToLE(EocdMagic, 4) + pad + ToLE(cdSize, 4) + ToLE(cdo, 4);
    IsAtSplit(data, e, a + ToLE(|comment|, 2), comment);
    IsAtSplit(data, e, a, ToLE(|comment|, 2));
    IsAtSplit(data, e, ToLE(EocdMagic, 4) + pad + ToLE(cdSize, 4), ToLE(cdo, 4));
    IsAtSplit(data, e, ToLE(EocdMagic, 4) + pad, ToLE(cdSize, 4));
    IsAtSplit(data, e, ToLE(EocdMagic, 4), pad);
    ReadEncoded(data, e, EocdMagic, 4);
    ReadEncoded(data, e + 16, cdo, 4);
    ReadEncoded(data, e + 20, |comment|, 2);
  }

  /** The fields of a signing block written out at z. */
  lemma BlockFields(data: seq<byte>, z: nat, pairs: seq<byte>)
    requires |data| < 0x1_0000_0000 && IsAt(data, z, SigningBlockBytes(pairs))
    ensures var t := z + 8 + |pairs|;
      ReadLE(data, z, 8) == Some(|pairs| + 24) && ReadLE(data, t, 8) == Some(|pairs| + 24) &&
      t + 24 <= |data| && data[t + 8..t + 24] == SigningBlockMagic
    ensures IsAt(data, z + 8, pairs)
  {
    Pow256Widths();
    var sz := |pairs| + 24;
    IsAtSplit(data, z, ToLE(sz, 8) + pairs + ToLE(sz, 8), SigningBlockMagic);
    IsAtSplit(data, z, ToLE(sz, 8) + pairs, ToLE(sz, 8));
    IsAtSplit(data, z, ToLE(sz, 8), pairs);
    ReadEncoded(data, z, sz, 8);
    ReadEncoded(data, z + 8 + |pairs|, sz, 8);
  }

  /** A block of size sz at z whose trailing size field sits at t, with both size fields and the magic in place, passes the checks before cdo. */
  lemma HeaderPasses(data: seq<byte>, z: nat, sz: nat, t: nat, cdo: nat, fuel: nat)
    requires |data| < 0x1_0000_0000 && 24 <= sz && t == z + sz - 16 && cdo == t + 24
    requires ReadLE(data, z, 8) == Some(sz) && ReadLE(data, t, 8) == Some(sz)
    requires t + 24 <= |data| && data[t + 8..t + 24] == SigningBlockMagic
    ensures BlockHeader(data, cdo) == Ok((z + 8, sz))
  {
    assert (cdo as int - 24) % 0x1_0000_0000 == t;
    assert LE(data[t..t + 8]) == sz;
    assert BlockStart(cdo, sz, t + 24) == z;
    assert ReadLE(data, BlockStart(cdo, sz, t + 24), 8) == Some(sz);
  }

  /** A signing block that ends at cdo passes the magic and size checks, and the walk starts at its first pair. */
  lemma BlockReads(data: seq<byte>, z: nat, pairs: seq<byte>, fuel: nat)
    requires |data| < 0x1_0000_0000 && IsAt(data, z, SigningBlockBytes(pairs))
    ensures SigningBlock(data, z + |SigningBlockBytes(pairs)|, fuel) == Walk(data, z + 8, |pairs| + 24, fuel)
    ensures IsAt(data, z + 8, pairs)
  {
    BlockFields(data, z, pairs);
    HeaderPasses(data, z, |pairs| + 24, z + 8 + |pairs|, z + |SigningBlockBytes(pairs)|, fuel);
    HeaderWalk(data, z + |SigningBlockBytes(pairs)|, z + 8, |pairs| + 24, fuel);
  }

  /** Once the block checks pass, the walk starts where they say. */
  lemma HeaderWalk(data: seq<byte>, cdo: nat, pos: nat, sz: nat, fuel: nat)
    requires cdo < 0x1_0000_0000 && BlockHeader(data, cdo) == Ok((pos, sz))
    ensures SigningBlock(data, cdo, fuel) == Walk(data, pos, sz, fuel)
  {
  }

  /** At q sits the v2 pair, and its first certificate is cert. */
  predicate V2At(data: seq<byte>, q: nat, blkSz: nat, cert: seq<byte>) {
    ReadLE(data, q, 8).Some? && ReadLE(data, q, 8).value != blkSz &&
    ReadLE(data, q + 8, 4) == Some(V2Magic) && V2Cert(data, q + 12) == Found(cert)
  }

  /** A v2 pair written out at q is one the walk stops at, with its first certificate. */
  lemma V2PairRead(data: seq<byte>, q: nat, blkSz: nat,
                   head: seq<byte>, digests: seq<byte>, certSeqLen: seq<byte>, cert: seq<byte>, tail: seq<byte>,
                   after: seq<byte>)
    requires |head| == 12 && |certSeqLen| == 4 && |data| < 0x1_0000_0000
    requires var v2 := Pair(V2Magic, V2Value(head, digests, certSeqLen, cert, tail));
      IsAt(data, q, v2 + after) && |v2| < blkSz
    ensures V2At(data, q, blkSz, cert)
  {
    Pow256Widths();
    var value := V2Value(head, digests, certSeqLen, cert, tail);
    var v2 := Pair(V2Magic, value);
    IsAtSplit(data, q, v2, after);
    IsAtSplit(data, q, ToLE(|value| + 4, 8) + ToLE(V2Magic, 4), value);
    IsAtSplit(data, q, ToLE(|value| + 4, 8), ToLE(V2Magic, 4));
    ReadEncoded(data, q, |value| + 4, 8);
    ReadEncoded(data, q + 8, V2Magic, 4);
    V2CertReads(data, q + 12, head, digests, certSeqLen, cert, tail);
  }

  /** A walk over a run of other pairs that reaches the v2 pair returns its certificate. */
  lemma WalkToV2(data: seq<byte>, pos: nat, blkSz: nat, fuel: nat, others: seq<(nat, seq<byte>)>, cert: seq<byte>)
    requires NonV2Run(data, pos, blkSz, others) && V2At(data, pos + RunSize(others), blkSz, cert)
    requires |others| < fuel
    ensures Walk(data, pos, blkSz, fuel) == Found(cert)
  {
    var q := pos + RunSize(others);
    SkipsRun(data, pos, blkSz, fuel, others, q, fuel - |others|);
    V2Stops(data, q, blkSz, fuel - |others|, cert);
  }

  /** The loop stops at a v2 pair, at its value. */
  lemma V2Stops(data: seq<byte>, q: nat, blkSz: nat, fuel: nat, cert: seq<byte>)
    requires V2At(data, q, blkSz, cert) && 0 < fuel
    ensures FindV2(data, q, blkSz, fuel) == Ok(q + 12)
  {
  }

  /**
   * The pairs of a signing block: other pairs (none of them v2), the v2 pair
   * v2 carrying cert as its first certificate, and anything after it.
   */
  predicate SignerPairs(pairs: seq<byte>, others: seq<(nat, seq<byte>)>, v2: seq<byte>,
                        head: seq<byte>, digests: seq<byte>, certSeqLen: seq<byte>, cert: seq<byte>, tail: seq<byte>,
                        after: seq<byte>) {
    |head| == 12 && |certSeqLen| == 4 && OtherIds(others) &&
    v2 == Pair(V2Magic, V2Value(head, digests, certSeqLen, cert, tail)) && pairs == Pairs(others) + (v2 + after)
  }

  /** From the start of the pairs: the run of other pairs is skipped and the v2 pair gives its certificate. */
  lemma PairsYieldCert(data: seq<byte>, pos: nat, blkSz: nat, fuel: nat, pairs: seq<byte>, others: seq<(nat, seq<byte>)>,
                       v2: seq<byte>, head: seq<byte>, digests: seq<byte>, certSeqLen: seq<byte>, cert: seq<byte>,
                       tail: seq<byte>, after: seq<byte>)
    requires |data| < 0x1_0000_0000 && SignerPairs(pairs, others, v2, head, digests, certSeqLen, cert, tail, after)
    requires IsAt(data, pos, pairs) && |pairs| < blkSz
    requires |others| < fuel
    ensures Walk(data, pos, blkSz, fuel) == Found(cert)
  {
    PairsSkipped(data, pos, blkSz, others, v2 + after);
    PairsSize(others);
    V2PairRead(data, pos + |Pairs(others)|, blkSz, head, digests, certSeqLen, cert, tail, after);
    WalkToV2(data, pos, blkSz, fuel, others, cert);
  }

  /** The pieces of an APK sit one after another. */
  lemma ApkPieces(zip: seq<byte>, pairs: seq<byte>, cd: seq<byte>, pad: seq<byte>, comment: seq<byte>)
    ensures var data := Apk(zip, pairs, cd, pad, comment);
      IsAt(data, |zip|, SigningBlockBytes(pairs)) &&
      data == (zip + SigningBlockBytes(pairs) + cd) + EocdBytes(pad, |cd|, |zip| + |SigningBlockBytes(pairs)|, comment)
  {
    var block := SigningBlockBytes(pairs);
    var pre := zip + block + cd;
    var data := Apk(zip, pairs, cd, pad, comment);
    IsAtWhole(data);
    IsAtSplit(data, 0, pre, EocdBytes(pad, |cd|, |zip| + |block|, comment));
    IsAtSplit(data, 0, zip + block, cd);
    IsAtSplit(data, 0, zip, block);
  }

  /** An EOCD record at e whose comment passes the version gate sends the reader to the signing block before its cdo. */
  lemma EocdGate(data: seq<byte>, e: nat, cdo: nat, comment: seq<byte>, version: int, parseInt: seq<byte> -> int, fuel: nat)
    requires e + EocdSize + |comment| <= |data| && cdo < 0x1_0000_0000
    requires LE(data[e + 16..e + 20]) == cdo && LE(data[e + 20..e + 22]) == |comment|
    requires data[e + 22..e + 22 + |comment|] == comment
    requires version < 0 || version <= parseInt(comment)
    ensures AfterEocd(data, e, version, parseInt, fuel) == SigningBlock(data, cdo, fuel)
  {
  }

  /** With no shorter comment length passing the test, the scan finds this EOCD record and the reader goes on to the signing block before cdo. */
  lemma EocdFound(pre: seq<byte>, pad: seq<byte>, cdSize: nat, cdo: nat, comment: seq<byte>,
                  version: int, parseInt: seq<byte> -> int, fuel: nat)
    requires |pad| == 8 && cdSize < 0x1_0000_0000 && cdo < 0x1_0000_0000 && |comment| <= MaxComment
    requires forall j | 0 <= j < |comment| :: !EocdAt(pre + EocdBytes(pad, cdSize, cdo, comment), j)
    requires version < 0 || version <= parseInt(comment)
    ensures Extract(pre + EocdBytes(pad, cdSize, cdo, comment), version, parseInt, fuel) ==
            SigningBlock(pre + EocdBytes(pad, cdSize, cdo, comment), cdo, fuel)
  {
    var data := pre + EocdBytes(pad, cdSize, cdo, comment);
    EocdReads(pre, pad, cdSize, cdo, comment);
    FindEocdFromFirst(data, 0, |comment|);
    assert FindEocd(data) == Some(|comment|);
    var e := |data| - EocdSize - |comment|;
    assert EocdPos(data) == Some(e);
    assert e == |pre|;
    EocdGate(data, e, cdo, comment, version, parseInt, fuel);
  }

  /** A signing block at z whose pairs are other pairs, then the v2 pair, then anything: past the block checks, the walk returns the v2 certificate. */
  lemma BlockYieldsCert(data: seq<byte>, z: nat, pairs: seq<byte>, others: seq<(nat, seq<byte>)>, v2: seq<byte>,
                        head: seq<byte>, digests: seq<byte>, certSeqLen: seq<byte>, cert: seq<byte>, tail: seq<byte>,
                        after: seq<byte>, fuel: nat)
    requires |data| < 0x1_0000_0000 && SignerPairs(pairs, others, v2, head, digests, certSeqLen, cert, tail, after)
    requires IsAt(data, z, SigningBlockBytes(pairs))
    requires |others| < fuel
    ensures SigningBlock(data, z + |SigningBlockBytes(pairs)|, fuel) == Found(cert)
  {
    BlockReads(data, z, pairs, fuel);
    PairsYieldCert(data, z + 8, |pairs| + 24, fuel, pairs, others, v2, head, digests, certSeqLen, cert, tail, after);
  }

  /**
   * read_certificate on a v2-signed APK: whatever pairs precede the v2 pair
   * and whatever follows, the result is the first certificate of the first
   * signer, provided the comment is accepted and no shorter comment length
   * also passes the EOCD test.
   */
  lemma SignedApkYieldsCert(zip: seq<byte>, pairs: seq<byte>, others: seq<(nat, seq<byte>)>, v2: seq<byte>,
                            head: seq<byte>, digests: seq<byte>, certSeqLen: seq<byte>, cert: seq<byte>, tail: seq<byte>,
                            after: seq<byte>, cd: seq<byte>, pad: seq<byte>, comment: seq<byte>,
                            version: int, parseInt: seq<byte> -> int, fuel: nat)
    requires SignerPairs(pairs, others, v2, head, digests, certSeqLen, cert, tail, after) && |others| < fuel
    requires |pad| == 8 && |comment| <= MaxComment
    requires |Apk(zip, pairs, cd, pad, comment)| < 0x1_0000_0000
    requires forall j | 0 <= j < |comment| :: !EocdAt(Apk(zip, pairs, cd, pad, comment), j)
    requires version < 0 || version <= parseInt(comment)
    ensures Extract(Apk(zip, pairs, cd, pad, comment), version, parseInt, fuel) == Found(cert)
  {
    var data := Apk(zip, pairs, cd, pad, comment);
    var pre := zip + SigningBlockBytes(pairs) + cd;
    var cdo := |zip| + |SigningBlockBytes(pairs)|;
    ApkPieces(zip, pairs, cd, pad, comment);
    EocdFound(pre, pad, |cd|, cdo, comment, version, parseInt, fuel);
    BlockYieldsCert(data, |zip|, pairs, others, v2, head, digests, certSeqLen, cert, tail, after, fuel);
  }

  // ---- The paths that return the empty string ----

  /** The comment of the EOCD record at e. */
  function Comment(data: seq<byte>, e: nat): seq<byte>
    requires e + EocdSize <= |data| && e + EocdSize + LE(data[e + 20..e + 22]) <= |data|
  {
    data[e + 22..e + 22 + LE(data[e + 20..e + 22])]
  }

  /** The EOCD scan fails: the result is empty. */
  lemma NoEocdRejected(data: seq<byte>, version: int, parseInt: seq<byte> -> int, fuel: nat)
    requires forall i | 0 <= i <= MaxComment :: !EocdAt(data, i)
    ensures Extract(data, version, parseInt, fuel) == NoEocd
    ensures CertOf(Extract(data, version, parseInt, fuel)) == []
  {
    FindEocdFromNone(data, 0);
  }

  /** A non-negative version above the number in the comment: the result is empty. */
  lemma TooOldRejected(data: seq<byte>, e: nat, version: int, parseInt: seq<byte> -> int, fuel: nat)
    requires EocdPos(data) == Some(e)
    requires version >= 0 && version > parseInt(Comment(data, e))
    ensures Extract(data, version, parseInt, fuel) == TooOld
    ensures CertOf(Extract(data, version, parseInt, fuel)) == []
  {
  }

  /** Past the version gate, read_certificate goes on to the signing block before the central directory offset. */
  lemma GatePassed(data: seq<byte>, e: nat, version: int, parseInt: seq<byte> -> int, fuel: nat)
    requires EocdPos(data) == Some(e)
    requires version < 0 || version <= parseInt(Comment(data, e))
    ensures LE(data[e + 16..e + 20]) < 0x1_0000_0000
    ensures Extract(data, version, parseInt, fuel) == SigningBlock(data, LE(data[e + 16..e + 20]), fuel)
  {
    LEBound(data[e + 16..e + 20]);
    Pow256Widths();
  }

  /** The 16 bytes before the central directory offset are not the magic (or lie past the end): the result is empty. */
  lemma BadMagicRejected(data: seq<byte>, e: nat, cdo: nat, version: int, parseInt: seq<byte> -> int, fuel: nat)
    requires EocdPos(data) == Some(e) && cdo == LE(data[e + 16..e + 20])
    requires version < 0 || version <= parseInt(Comment(data, e))
    requires 24 <= cdo && !IsAt(data, cdo - 16, SigningBlockMagic)
    ensures Extract(data, version, parseInt, fuel) == BadMagic
    ensures CertOf(Extract(data, version, parseInt, fuel)) == []
  {
    GatePassed(data, e, version, parseInt, fuel);
    BlockHeaderNoMagic(data, cdo);
  }

  lemma BlockHeaderNoMagic(data: seq<byte>, cdo: nat)
    requires 24 <= cdo < 0x1_0000_0000 && !IsAt(data, cdo - 16, SigningBlockMagic)
    ensures BlockHeader(data, cdo) == Err(BadMagic)
  {
    assert (cdo as int - 24) % 0x1_0000_0000 == cdo - 24;
  }

  /**
   * The magic is in place, but the size field size8 + 8 bytes before the
   * central directory offset does not repeat the trailing one (or lies past
   * the end): the result is empty.
   */
  lemma SizeMismatchRejected(data: seq<byte>, e: nat, cdo: nat, version: int, parseInt: seq<byte> -> int, fuel: nat)
    requires EocdPos(data) == Some(e) && cdo == LE(data[e + 16..e + 20])
    requires version < 0 || version <= parseInt(Comment(data, e))
    requires 24 <= cdo && IsAt(data, cdo - 16, SigningBlockMagic)
    requires LE(data[cdo - 24..cdo - 16]) + 8 <= cdo
    requires ReadLE(data, cdo - LE(data[cdo - 24..cdo - 16]) - 8, 8) != Some(LE(data[cdo - 24..cdo - 16]))
    ensures Extract(data, version, parseInt, fuel) == SizeMismatch
    ensures CertOf(Extract(data, version, parseInt, fuel)) == []
  {
    GatePassed(data, e, version, parseInt, fuel);
    BlockHeaderMagic(data, cdo);
  }

  /** With the magic in place before cdo, the header check reads the leading size field size8 + 8 bytes before cdo. */
  lemma BlockHeaderMagic(data: seq<byte>, cdo: nat)
    requires 24 <= cdo < 0x1_0000_0000 && IsAt(data, cdo - 16, SigningBlockMagic)
    requires LE(data[cdo - 24..cdo - 16]) + 8 <= cdo
    ensures var size8 := LE(data[cdo - 24..cdo - 16]);
      BlockHeader(data, cdo) ==
        if ReadLE(data, cdo - size8 - 8, 8) == Some(size8) then Ok((cdo - size8, size8)) else Err(SizeMismatch)
  {
    var t := cdo - 24;
    assert (cdo as int - 24) % 0x1_0000_0000 == t;
    assert data[t + 8..t + 24] == SigningBlockMagic;
    var size8 := LE(data[t..t + 8]);
    assert BlockStart(cdo, size8, t + 24) == cdo - size8 - 8;
  }

  /** A pair length equal to the block size ends the walk: the result is empty. */
  lemma BlockEndRejected(data: seq<byte>, pos: nat, blkSz: nat, fuel: nat)
    requires 0 < fuel && ReadLE(data, pos, 8) == Some(blkSz)
    ensures Walk(data, pos, blkSz, fuel) == NoV2
    ensures CertOf(Walk(data, pos, blkSz, fuel)) == []
  {
  }

  /**
   * The block checks pass, but the first pair's length is the block size:
   * read_certificate finds no v2 block and returns the empty string.
   */
  lemma FirstPairEndsBlock(data: seq<byte>, e: nat, cdo: nat, version: int, parseInt: seq<byte> -> int, fuel: nat)
    requires 0 < fuel && EocdPos(data) == Some(e) && cdo == LE(data[e + 16..e + 20])
    requires version < 0 || version <= parseInt(Comment(data, e))
    requires 24 <= cdo && IsAt(data, cdo - 16, SigningBlockMagic)
    requires LE(data[cdo - 24..cdo - 16]) + 8 <= cdo
    requires ReadLE(data, cdo - LE(data[cdo - 24..cdo - 16]) - 8, 8) == Some(LE(data[cdo - 24..cdo - 16]))
    requires ReadLE(data, cdo - LE(data[cdo - 24..cdo - 16]), 8) == Some(LE(data[cdo - 24..cdo - 16]))
    ensures Extract(data, version, parseInt, fuel) == NoV2
  {
    GatePassed(data, e, version, parseInt, fuel);
    BlockHeaderMagic(data, cdo);
    var size8 := LE(data[cdo - 24..cdo - 16]);
    BlockEndRejected(data, cdo - size8, size8, fuel);
  }
}
