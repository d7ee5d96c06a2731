/**
  generic/339: the XFS directory hash, and the generator that picks the last four bytes of a
  name to steer it.
*/
module DirHash {
  import opened Options
  import opened RotXor

  const NAMELEN := 252
  const PREFIX := 248
  const DOT: bv8 := 0x2e
  const SLASH: bv8 := 0x2f

  function Rol28(word: bv32): bv32 {
    (word << 28) | (word >> 4)
  }

  function Pack(a: bv8, b: bv8, c: bv8, d: bv8): bv32 {
    ((a as bv32) << 21) ^ ((b as bv32) << 14) ^ ((c as bv32) << 7) ^ (d as bv32)
  }

  /** The whole four-byte chunks of a name, packed. */
  function Chunks(name: seq<bv8>): (r: seq<bv32>)
    ensures |r| == |name| / 4
    ensures forall i :: 0 <= i < |r| ==> r[i] == Pack(name[4 * i], name[4 * i + 1], name[4 * i + 2], name[4 * i + 3])
  {
    seq(|name| / 4, i requires 0 <= i < |name| / 4 =>
      Pack(name[4 * i], name[4 * i + 1], name[4 * i + 2], name[4 * i + 3]))
  }

  /** As a number, a word moved up by a bit is doubled. */
  lemma UpOne(w: bv32)
    requires w < 0x8000_0000
    ensures (w << 1) as int == 2 * (w as int)
  {
  }

  lemma UpSeven(w: bv32)
    requires w < 0x200_0000
    ensures (w << 7) as int == 0x80 * (w as int)
  {
    UpOne(w);
    UpOne(w << 1);
    UpOne(w << 2);
    UpOne(w << 3);
    UpOne(w << 4);
    UpOne(w << 5);
    UpOne(w << 6);
    assert w << 7 == (w << 6) << 1 && w << 6 == (w << 5) << 1 && w << 5 == (w << 4) << 1;
    assert w << 4 == (w << 3) << 1 && w << 3 == (w << 2) << 1 && w << 2 == (w << 1) << 1;
  }

  /** As a number, every byte goes in whole, each seven bits above the one behind it. */
  lemma PackPlaces(b: bv8)
    ensures Pack(b, 0, 0, 0) as int == b as int * 0x20_0000
    ensures Pack(0, b, 0, 0) as int == b as int * 0x4000
    ensures Pack(0, 0, b, 0) as int == b as int * 0x80
    ensures Pack(0, 0, 0, b) as int == b as int
  {
    var w := b as bv32;
    assert w <= 0xff;
    UpSeven(w);
    UpSeven(w << 7);
    UpSeven(w << 14);
    assert w << 14 == (w << 7) << 7 && w << 21 == (w << 14) << 7;
    OneByte(b);
  }

  lemma OneByte(b: bv8)
    ensures Pack(b, 0, 0, 0) == (b as bv32) << 21 && Pack(0, b, 0, 0) == (b as bv32) << 14
    ensures Pack(0, 0, b, 0) == (b as bv32) << 7 && Pack(0, 0, 0, b) == b as bv32
  {
  }

  /** So a packed chunk is the exclusive or of its four bytes, each in its place. */
  lemma PackIsXorOfPlaces(a: bv8, b: bv8, c: bv8, d: bv8)
    ensures Pack(a, b, c, d) == Pack(a, 0, 0, 0) ^ Pack(0, b, 0, 0) ^ Pack(0, 0, c, 0) ^ Pack(0, 0, 0, d)
  {
  }

  /** Rotating by 28 bits brings the lowest four to the top and moves the others down by four. */
  lemma Rol28Places(w: bv32)
    ensures Rol28(w) >> 28 == w & 0xf && Rol28(w) & 0x0fff_ffff == w >> 4
  {
  }

  function Xor(x: bv32, y: bv32): bv32 {
    x ^ y
  }

  const WORDS: Ops<bv32> := Ops(0, (x: bv32, y: bv32) => Xor(x, y), (x: bv32) => Rol28(x))

  /** The hash of a name, as a fold of its chunks. */
  function Hash(name: seq<bv8>): bv32 {
    Fold(WORDS, Chunks(name))
  }

  lemma FoldOneMore(words: seq<bv32>, n: nat)
    requires n < |words|
    ensures Fold(WORDS, words[..n + 1]) == Xor(words[n], Rol28(Fold(WORDS, words[..n])))
  {
    assert words[..n + 1][..n] == words[..n];
  }

  /** xfs_da_hashname(). */
  method HashName(name: seq<bv8>) returns (hash: bv32)
    ensures hash == Hash(name)
  {
    hash := 0;
    var at, namelen := 0, |name|;
    ghost var n, chunks := 0, Chunks(name);
    while namelen >= 4
      invariant at == 4 * n && namelen >= 0 && at + namelen == |name|
      invariant hash == Fold(WORDS, chunks[..n])
      decreases namelen
    {
      FoldOneMore(chunks, n);
      hash := Xor(Pack(name[at], name[at + 1], name[at + 2], name[at + 3]), Rol28(hash));
      at, namelen, n := at + 4, namelen - 4, n + 1;
    }
    assert chunks[..n] == chunks;
  }

  // ---------- the laws of 32-bit words ----------

  lemma XorCommutes(x: bv32, y: bv32)
    ensures Xor(x, y) == Xor(y, x) && Xor(0, x) == x && Xor(x, x) == 0
  {
  }

  lemma XorIsAssociative(x: bv32, y: bv32, z: bv32)
    ensures Xor(Xor(x, y), z) == Xor(x, Xor(y, z))
  {
    assert (x ^ y) ^ z == x ^ (y ^ z);
  }

  lemma Rol28OfXor(x: bv32, y: bv32)
    ensures Rol28(Xor(x, y)) == Xor(Rol28(x), Rol28(y)) && Rol28(0) == 0
  {
  }

  /** Rotation left by r bits, for the multiples of 4 below 32, which are all that come up. */
  function Rotate(word: bv32, r: nat): bv32 {
    match r
    case 0 => word
    case 4 => (word << 4) | (word >> 28)
    case 8 => (word << 8) | (word >> 24)
    case 12 => (word << 12) | (word >> 20)
    case 16 => (word << 16) | (word >> 16)
    case 20 => (word << 20) | (word >> 12)
    case 24 => (word << 24) | (word >> 8)
    case _ => (word << 28) | (word >> 4)
  }

  lemma RotateOnce(word: bv32, r: nat)
    requires r < 32 && r % 4 == 0
    ensures Rol28(Rotate(word, r)) == Rotate(word, if r >= 4 then r - 4 else 28)
  {
    if r == 0 {
    } else if r == 4 { assert Rol28((word << 4) | (word >> 28)) == word;
    } else if r == 8 { assert Rol28((word << 8) | (word >> 24)) == (word << 4) | (word >> 28);
    } else if r == 12 { assert Rol28((word << 12) | (word >> 20)) == (word << 8) | (word >> 24);
    } else if r == 16 { assert Rol28((word << 16) | (word >> 16)) == (word << 12) | (word >> 20);
    } else if r == 20 { assert Rol28((word << 20) | (word >> 12)) == (word << 16) | (word >> 16);
    } else if r == 24 { assert Rol28((word << 24) | (word >> 8)) == (word << 20) | (word >> 12);
    } else { assert Rol28((word << 28) | (word >> 4)) == (word << 24) | (word >> 8);
    }
  }

  /** What d rotations by 28 bits amount to. */
  function Bits(d: nat): (r: nat)
    ensures r < 32 && r % 4 == 0
  {
    if d == 0 then 0 else if Bits(d - 1) >= 4 then Bits(d - 1) - 4 else 28
  }

  lemma RemainderIs(x: nat, q: nat, r: nat)
    requires x == 32 * q + r && r < 32
    ensures x % 32 == r && x / 32 == q
  {
  }

  lemma {:induction false} BitsAreModulo32(d: nat)
    ensures Bits(d) == (28 * d) % 32
  {
    if d > 0 {
      BitsAreModulo32(d - 1);
      var earlier := 28 * (d - 1);
      var q := earlier / 32;
      assert earlier == 32 * q + Bits(d - 1);
      RemainderIs(earlier + 28, if Bits(d - 1) >= 4 then q + 1 else q, Bits(d));
    }
  }

  /** Rotating d times by 28 is rotating once by 28 * d, modulo 32. */
  lemma {:induction false} TurnIsRotation(word: bv32, d: nat)
    ensures Turn(WORDS, word, d) == Rotate(word, Bits(d))
  {
    if d > 0 {
      TurnIsRotation(word, d - 1);
      RotateOnce(word, Bits(d - 1));
      assert Turn(WORDS, word, d) == Rol28(Turn(WORDS, word, d - 1));
    }
  }

  lemma EightTurns(word: bv32)
    ensures Turn(WORDS, word, PERIOD) == word
  {
    TurnIsRotation(word, PERIOD);
    BitsAreModulo32(PERIOD);
  }

  lemma AddIsXor(x: bv32, y: bv32)
    ensures WORDS.add(x, y) == Xor(x, y)
  {
  }

  lemma AddLaws(x: bv32, y: bv32)
    ensures WORDS.add(x, y) == WORDS.add(y, x)
    ensures WORDS.add(WORDS.zero, x) == x && WORDS.add(x, x) == WORDS.zero
  {
    XorCommutes(x, y);
  }

  lemma AddIsAssociative(x: bv32, y: bv32, z: bv32)
    ensures WORDS.add(WORDS.add(x, y), z) == WORDS.add(x, WORDS.add(y, z))
  {
    XorIsAssociative(x, y, z);
    AddIsXor(x, y);
    AddIsXor(y, z);
    AddIsXor(Xor(x, y), z);
    AddIsXor(x, Xor(y, z));
  }

  lemma RolIsLinear(x: bv32, y: bv32)
    ensures WORDS.rol(WORDS.add(x, y)) == WORDS.add(WORDS.rol(x), WORDS.rol(y))
    ensures WORDS.rol(WORDS.zero) == WORDS.zero
  {
    Rol28OfXor(x, y);
    AddIsXor(x, y);
    AddIsXor(Rol28(x), Rol28(y));
  }

  lemma WordLaws(x: bv32, y: bv32, z: bv32)
    ensures Laws(WORDS, x, y, z)
  {
    AddLaws(x, y);
    AddIsAssociative(x, y, z);
    RolIsLinear(x, y);
    EightTurns(x);
  }

  lemma WordsAreLawful()
    ensures Lawful(WORDS)
  {
    forall x: bv32, y: bv32, z: bv32 ensures Laws(WORDS, x, y, z) {
      WordLaws(x, y, z);
    }
  }

  // ---------- what the hash is ----------

  /** The loop computes the exclusive or of the chunks, each rotated by 28 bits for every chunk
      that follows it; TurnIsRotation says what those rotations amount to. */
  lemma HashIsXorOfRotations(name: seq<bv8>)
    ensures Hash(name) == SumOfTurns(WORDS, Chunks(name), |name| / 4)
  {
    WordsAreLawful();
    FoldIsSumOfTurns(WORDS, Chunks(name));
  }

  function XorNames(a: seq<bv8>, b: seq<bv8>): (r: seq<bv8>)
    requires |a| == |b|
    ensures |r| == |a|
    ensures forall i :: 0 <= i < |a| ==> r[i] == a[i] ^ b[i]
  {
    seq(|a|, i requires 0 <= i < |a| => a[i] ^ b[i])
  }

  lemma PackXor(a: bv8, b: bv8, c: bv8, d: bv8, a': bv8, b': bv8, c': bv8, d': bv8)
    ensures Pack(a ^ a', b ^ b', c ^ c', d ^ d') == Xor(Pack(a, b, c, d), Pack(a', b', c', d'))
  {
  }

  /** On names of one length the hash of an exclusive or is the exclusive or of the hashes. */
  lemma HashIsLinear(a: seq<bv8>, b: seq<bv8>)
    requires |a| == |b|
    ensures Hash(XorNames(a, b)) == Hash(a) ^ Hash(b)
  {
    forall i | 0 <= i < |a| / 4 ensures Chunks(XorNames(a, b))[i] == Sums(WORDS, Chunks(a), Chunks(b))[i] {
      PackXor(a[4 * i], a[4 * i + 1], a[4 * i + 2], a[4 * i + 3], b[4 * i], b[4 * i + 1], b[4 * i + 2], b[4 * i + 3]);
    }
    assert Chunks(XorNames(a, b)) == Sums(WORDS, Chunks(a), Chunks(b));
    WordsAreLawful();
    FoldIsLinear(WORDS, Chunks(a), Chunks(b));
  }

  /** Bytes after the last whole chunk do not count. */
  lemma TrailingBytesAreIgnored(name: seq<bv8>, tail: seq<bv8>)
    requires |name| % 4 == 0 && |tail| < 4
    ensures Hash(name + tail) == Hash(name)
  {
    assert Chunks(name + tail) == Chunks(name);
  }

  /** Exchanging two chunks a multiple of eight apart keeps the hash: 8 * 28 is a multiple of 32. */
  lemma SwappingChunksEightApartKeepsTheHash(a: seq<bv8>, b: seq<bv8>, i: nat, j: nat)
    requires |a| == |b| && i < j < |a| / 4 && (j - i) % 8 == 0
    requires a[4 * i..4 * i + 4] == b[4 * j..4 * j + 4] && a[4 * j..4 * j + 4] == b[4 * i..4 * i + 4]
    requires forall k :: 0 <= k < |a| / 4 && k != i && k != j ==> a[4 * k..4 * k + 4] == b[4 * k..4 * k + 4]
    ensures Hash(a) == Hash(b)
  {
    ChunkAt(a, i); ChunkAt(a, j); ChunkAt(b, i); ChunkAt(b, j);
    forall k | 0 <= k < |a| / 4 && k != i && k != j ensures Chunks(a)[k] == Chunks(b)[k] {
      ChunkAt(a, k); ChunkAt(b, k);
    }
    assert Chunks(b) == Chunks(a)[i := Chunks(a)[j]][j := Chunks(a)[i]];
    WordsAreLawful();
    FoldIgnoresSwap(WORDS, Chunks(a), i, j);
  }

  function PackSlice(s: seq<bv8>): bv32
    requires |s| == 4
  {
    Pack(s[0], s[1], s[2], s[3])
  }

  lemma ChunkAt(name: seq<bv8>, k: nat)
    requires k < |name| / 4
    ensures Chunks(name)[k] == PackSlice(name[4 * k..4 * k + 4])
  {
  }

  /** Four more bytes are one more step of the loop. */
  lemma HashOneMoreChunk(name: seq<bv8>, tail: seq<bv8>)
    requires |name| % 4 == 0 && |tail| == 4
    ensures Hash(name + tail) == PackSlice(tail) ^ Rol28(Hash(name))
  {
    assert Chunks(name + tail) == Chunks(name) + [PackSlice(tail)];
    assert (Chunks(name) + [PackSlice(tail)])[..|name| / 4] == Chunks(name);
  }

  // ---------- the generator ----------

  function Complement(word: bv32): bv32 {
    word ^ 0xffff_ffff
  }

  /** The word the last four bytes have to add. */
  function LastWord(prefix: seq<bv8>): bv32 {
    Complement(Rol28(Hash(prefix)))
  }

  function Tail(last: bv32): (r: seq<bv8>)
    ensures |r| == 4
  {
    [((last >> 21) & 0xff) as bv8, ((last >> 14) & 0x7f) as bv8,
     ((last >> 7) & 0x7f) as bv8, (last & 0x7f) as bv8]
  }

  /** What a buffer must be for the generator to return it. */
  ghost predicate Accepted(name: seq<bv8>) {
    && |name| == NAMELEN
    && 0 !in name[..PREFIX]
    && LastWord(name[..PREFIX]) != 0
    && name[PREFIX..] == Tail(LastWord(name[..PREFIX]))
    && DOT !in name && SLASH !in name
  }

  /** The bytes of a stream that are not zero, in order. */
  function NonZeros(s: seq<bv8>): (r: seq<bv8>)
    ensures 0 !in r
  {
    if s == [] then [] else (if s[0] == 0 then [] else [s[0]]) + NonZeros(s[1..])
  }

  lemma {:induction false} NonZerosJoin(a: seq<bv8>, b: seq<bv8>)
    ensures NonZeros(a + b) == NonZeros(a) + NonZeros(b)
  {
    if a == [] {
      assert a + b == b;
    } else {
      NonZerosJoin(a[1..], b);
      assert (a + b)[1..] == a[1..] + b && (a + b)[0] == a[0];
    }
  }

  /** Zeros go, everything else stays where it is among the others. */
  lemma NonZerosKeep(a: seq<bv8>, x: bv8, b: seq<bv8>)
    ensures NonZeros(a + [x] + b) == NonZeros(a) + (if x == 0 then [] else [x]) + NonZeros(b)
    ensures NonZeros([]) == []
  {
    NonZerosJoin(a, [x]);
    NonZerosJoin(a + [x], b);
    assert [x][1..] == [];
  }

  /** The name made of a random part. */
  function Steered(prefix: seq<bv8>): seq<bv8> {
    prefix + Tail(LastWord(prefix))
  }

  predicate Good(prefix: seq<bv8>) {
    LastWord(prefix) != 0 && DOT !in Steered(prefix) && SLASH !in Steered(prefix)
  }

  /** The name made of the first good random part, taking the draws part by part. */
  function FirstGood(draws: seq<bv8>): (r: Option<seq<bv8>>)
    requires 0 !in draws
    ensures r.Some? ==> Accepted(r.value)
  {
    if |draws| < PREFIX then None
    else if Good(draws[..PREFIX]) then
      assert Steered(draws[..PREFIX])[..PREFIX] == draws[..PREFIX];
      Some(Steered(draws[..PREFIX]))
    else FirstGood(draws[PREFIX..])
  }

  /** The k-th part of the draws. */
  function Part(draws: seq<bv8>, k: nat): seq<bv8>
    requires PREFIX * (k + 1) <= |draws|
  {
    draws[PREFIX * k..PREFIX * (k + 1)]
  }

  ghost predicate FirstGoodPart(draws: seq<bv8>, k: nat) {
    && PREFIX * (k + 1) <= |draws| && Good(Part(draws, k))
    && forall j: nat :: j < k ==> !Good(Part(draws, j))
  }

  lemma PartOfRest(draws: seq<bv8>, k: nat)
    requires PREFIX * (k + 2) <= |draws|
    ensures Part(draws[PREFIX..], k) == Part(draws, k + 1)
  {
  }

  /** There is a good name exactly if some whole part is good, and it is made of the first that is. */
  lemma {:induction false} FirstGoodIs(draws: seq<bv8>)
    requires 0 !in draws
    ensures FirstGood(draws).Some? <==> exists k: nat :: FirstGoodPart(draws, k)
    ensures forall k: nat :: FirstGoodPart(draws, k) ==> FirstGood(draws) == Some(Steered(Part(draws, k)))
  {
    if |draws| >= PREFIX {
      assert Part(draws, 0) == draws[..PREFIX];
      var rest := draws[PREFIX..];
      if Good(draws[..PREFIX]) {
        assert FirstGoodPart(draws, 0);
      } else {
        FirstGoodIs(rest);
        forall k: nat ensures FirstGoodPart(rest, k) <==> FirstGoodPart(draws, k + 1) {
          LaterPart(draws, k);
        }
        assert !FirstGoodPart(draws, 0);
        forall k: nat | FirstGoodPart(draws, k) ensures FirstGoodPart(rest, k - 1) && Part(rest, k - 1) == Part(draws, k) {
          assert k != 0;
          LaterPart(draws, k - 1);
          PartOfRest(draws, k - 1);
        }
      }
    }
  }

  lemma LaterPart(draws: seq<bv8>, k: nat)
    requires |draws| >= PREFIX && !Good(Part(draws, 0))
    ensures FirstGoodPart(draws[PREFIX..], k) <==> FirstGoodPart(draws, k + 1)
  {
    if PREFIX * (k + 2) <= |draws| {
      forall j: nat | j <= k ensures Part(draws[PREFIX..], j) == Part(draws, j + 1) {
        PartOfRest(draws, j);
      }
      assert (forall j: nat :: j < k ==> !Good(Part(draws[PREFIX..], j))) <==>
             (forall j: nat :: j < k + 1 ==> !Good(Part(draws, j))) by {
        if forall j: nat :: j < k ==> !Good(Part(draws[PREFIX..], j)) {
          forall j: nat | j < k + 1 ensures !Good(Part(draws, j)) {
            if j > 0 { assert !Good(Part(draws[PREFIX..], j - 1)); }
          }
        }
        if forall j: nat :: j < k + 1 ==> !Good(Part(draws, j)) {
          forall j: nat | j < k ensures !Good(Part(draws[PREFIX..], j)) {
            assert !Good(Part(draws, j + 1));
          }
        }
      }
    }
  }

  /** A stream of random bytes, drawn in order. */
  class Random {
    const bytes: seq<bv8>
    var at: nat

    ghost predicate Valid()
      reads this
    {
      at <= |bytes|
    }

    /** What can still be drawn. */
    ghost function Coming(): seq<bv8>
      requires Valid()
      reads this
    {
      NonZeros(bytes[at..])
    }

    constructor (bytes: seq<bv8>)
      ensures Valid() && this.bytes == bytes && at == 0
    {
      this.bytes, at := bytes, 0;
    }

    /** g339_gen_rand(): redraws until the byte is not zero; 0 says the stream ran dry. */
    method NonZero() returns (r: bv8)
      requires Valid()
      modifies this
      ensures Valid()
      ensures if old(Coming()) == [] then r == 0 && Coming() == []
              else r == old(Coming())[0] && Coming() == old(Coming())[1..]
    {
      while at < |bytes|
        invariant Valid() && Coming() == old(Coming())
      {
        r := bytes[at];
        assert bytes[at..][1..] == bytes[at + 1..];
        at := at + 1;
        if r != 0 { return; }
      }
      r := 0;
    }
  }

  /** The random part of one attempt. */
  method DrawPrefix(random: Random, buffer: array<bv8>) returns (ok: bool)
    requires random.Valid() && buffer.Length == NAMELEN + 1
    modifies random, buffer
    ensures random.Valid()
    ensures ok <==> |old(random.Coming())| >= PREFIX
    ensures ok ==> buffer[..PREFIX] == old(random.Coming())[..PREFIX]
    ensures ok ==> random.Coming() == old(random.Coming())[PREFIX..]
  {
    ghost var draws := random.Coming();
    for idx := 0 to PREFIX
      invariant random.Valid() && idx <= |draws|
      invariant random.Coming() == draws[idx..] && buffer[..idx] == draws[..idx]
    {
      var r := random.NonZero();
      if r == 0 { return false; }
      buffer[idx] := r;
      assert buffer[..idx + 1] == buffer[..idx] + [r];
    }
    ok := true;
  }

  /** The computed part, and the terminator. */
  method SetTail(buffer: array<bv8>, tail: seq<bv8>)
    requires buffer.Length == NAMELEN + 1 && |tail| == 4
    modifies buffer
    ensures buffer[..PREFIX] == old(buffer[..PREFIX]) && buffer[PREFIX..NAMELEN] == tail && buffer[NAMELEN] == 0
  {
    buffer[PREFIX + 3] := tail[3];
    buffer[PREFIX + 2] := tail[2];
    buffer[PREFIX + 1] := tail[1];
    buffer[PREFIX] := tail[0];
    buffer[NAMELEN] := 0;
  }

  /** g339_gen_name(): the first good name, or false if the stream runs dry before one. */
  method GenName(random: Random, buffer: array<bv8>) returns (ok: bool)
    requires random.Valid() && buffer.Length == NAMELEN + 1
    modifies random, buffer
    ensures random.Valid()
    ensures ok <==> FirstGood(old(random.Coming())).Some?
    ensures ok ==> buffer[..NAMELEN] == FirstGood(old(random.Coming())).value && buffer[NAMELEN] == 0
  {
    while true
      invariant random.Valid() && FirstGood(random.Coming()) == FirstGood(old(random.Coming()))
      decreases |random.Coming()|
    {
      ok := DrawPrefix(random, buffer);
      if !ok { return; }
      ghost var prefix := buffer[..PREFIX];
      var hash := HashName(buffer[..PREFIX]);
      var last := Complement(Rol28(hash));
      if last == 0 { continue; }
      SetTail(buffer, Tail(last));
      assert buffer[..NAMELEN] == buffer[..PREFIX] + buffer[PREFIX..NAMELEN] == Steered(prefix);
      var name := buffer[..NAMELEN];
      if DOT !in name && SLASH !in name {
        return true;
      }
    }
  }

  lemma TailPacksTo(last: bv32)
    ensures PackSlice(Tail(last)) == last & 0x1fff_ffff
  {
  }

  lemma SteeredWord(h: bv32)
    ensures Xor(Complement(h) & 0x1fff_ffff, h) == h | 0x1fff_ffff
  {
  }

  lemma SteeredHash(name: seq<bv8>)
    requires Accepted(name)
    ensures Hash(name) == Rol28(Hash(name[..PREFIX])) | 0x1fff_ffff
  {
    assert name == name[..PREFIX] + name[PREFIX..];
    HashOneMoreChunk(name[..PREFIX], name[PREFIX..]);
    TailPacksTo(LastWord(name[..PREFIX]));
    SteeredWord(Rol28(Hash(name[..PREFIX])));
  }

  lemma LowBitsSet(h: bv32)
    ensures (h | 0x1fff_ffff) & 0x1fff_ffff == 0x1fff_ffff
  {
  }

  lemma TopBitsDecide(g: bv32, h: bv32)
    ensures Rol28(g) | 0x1fff_ffff == Rol28(h) | 0x1fff_ffff <==> g & 0xe == h & 0xe
  {
  }

  /** Every accepted buffer hashes to a value whose low 29 bits are all ones; the generator's eight
      bits of the top byte leave the last three alone. */
  lemma AcceptedHashesEndInOnes(name: seq<bv8>)
    requires Accepted(name)
    ensures Hash(name) & 0x1fff_ffff == 0x1fff_ffff
  {
    SteeredHash(name);
    LowBitsSet(Rol28(Hash(name[..PREFIX])));
  }

  /** So the hash is not one fixed value: two accepted buffers collide exactly when the hashes of
      their random prefixes agree in bits 1, 2 and 3. */
  lemma AcceptedNamesCollideIff(a: seq<bv8>, b: seq<bv8>)
    requires Accepted(a) && Accepted(b)
    ensures Hash(a) == Hash(b) <==> Hash(a[..PREFIX]) & 0xe == Hash(b[..PREFIX]) & 0xe
  {
    SteeredHash(a);
    SteeredHash(b);
    TopBitsDecide(Hash(a[..PREFIX]), Hash(b[..PREFIX]));
  }

  /** The hash of n chunks that all hold four bytes of value 1. */
  function Steady(n: nat): bv32 {
    if n == 0 then 0 else Xor(Pack(1, 1, 1, 1), Rol28(Steady(n - 1)))
  }

  lemma SteadyValues()
    ensures Steady(14) == 0x22448910 && Steady(16) == 0
  {
    assert Steady(1) == 0x00204081;
    assert Steady(2) == 0x10224489;
    assert Steady(3) == 0x912264c9;
    assert Steady(4) == 0x993266cd;
    assert Steady(5) == 0xd9b366ed;
    assert Steady(6) == 0xddbb76ef;
    assert Steady(7) == 0xfdfbf7ef;
    assert Steady(8) == 0xffffffff;
    assert Steady(9) == 0xffdfbf7e;
    assert Steady(10) == 0xefddbb76;
    assert Steady(11) == 0x6edd9b36;
    assert Steady(12) == 0x66cd9932;
    assert Steady(13) == 0x264c9912;
    assert Steady(14) == 0x22448910;
    assert Steady(15) == 0x02040810;
    assert Steady(16) == 0x00000000;
  }

  lemma {:induction false} SteadyRepeats(n: nat)
    ensures Steady(n + 16) == Steady(n)
  {
    if n == 0 {
      SteadyValues();
    } else {
      SteadyRepeats(n - 1);
    }
  }

  lemma {:induction false} FoldOfOnes(n: nat)
    ensures Fold(WORDS, seq(n, _ => Pack(1, 1, 1, 1))) == Steady(n)
  {
    if n > 0 {
      FoldOfOnes(n - 1);
      assert seq(n, _ => Pack(1, 1, 1, 1))[..n - 1] == seq(n - 1, _ => Pack(1, 1, 1, 1));
    }
  }

  function Ones(n: nat): (r: seq<bv8>)
    ensures |r| == n && forall i :: 0 <= i < n ==> r[i] == 1
  {
    seq(n, _ => 1)
  }

  lemma ChunksOfOnes(n: nat)
    ensures Chunks(Ones(4 * n)) == seq(n, _ => Pack(1, 1, 1, 1))
  {
  }

  lemma HashOfOnes()
    ensures Hash(Ones(PREFIX)) == 0x22448910
  {
    ChunksOfOnes(62);
    FoldOfOnes(62);
    SteadyRepeats(46);
    SteadyRepeats(30);
    SteadyRepeats(14);
    SteadyValues();
  }

  lemma LowByteDiffers(x: bv32, y: bv32, h: bv32)
    requires x == Xor(PackSlice([1, 1, 1, 1]), h) && y == Xor(PackSlice([1, 1, 1, 3]), h)
    ensures x == 0x22448910 ==> y == 0x22448912
  {
  }

  lemma OnesThen(last: bv8)
    ensures Hash(Ones(247) + [last]) == Xor(PackSlice([1, 1, 1, last]), Rol28(Hash(Ones(244))))
  {
    assert Ones(247) + [last] == Ones(244) + [1, 1, 1, last];
    HashOneMoreChunk(Ones(244), [1, 1, 1, last]);
  }

  /** The last random byte changed from 1 to 3 moves bit 1 of the prefix's hash. */
  lemma ChangingTheLastOne()
    ensures Hash(Ones(247) + [1]) == 0x22448910 ==> Hash(Ones(247) + [3]) == 0x22448912
  {
    OnesThen(1);
    OnesThen(3);
    LowByteDiffers(Hash(Ones(247) + [1]), Hash(Ones(247) + [3]), Rol28(Hash(Ones(244))));
  }

  lemma HashOfOnesAndThree()
    ensures Hash(Ones(247) + [3]) == 0x22448912
  {
    HashOfOnes();
    assert Ones(PREFIX) == Ones(247) + [1];
    ChangingTheLastOne();
  }

  lemma SteersTo(prefix: seq<bv8>)
    requires |prefix| == PREFIX && 0 !in prefix && DOT !in prefix && SLASH !in prefix
    requires Hash(prefix) == 0x22448910 || Hash(prefix) == 0x22448912
    ensures Accepted(prefix + Tail(LastWord(prefix)))
  {
    assert LastWord(prefix) == 0xfddbb76e || LastWord(prefix) == 0xdddbb76e;
    assert Tail(LastWord(prefix)) == [0xee, 0x6e, 0x6e, 0x6e];
    var name := prefix + Tail(LastWord(prefix));
    assert name[..PREFIX] == prefix && name[PREFIX..] == Tail(LastWord(prefix));
  }

  lemma BitOneDiffers(g: bv32, h: bv32)
    requires g == 0x22448910 && h == 0x22448912
    ensures g & 0xe != h & 0xe
  {
  }

  /** Two buffers the generator accepts, with different hashes. */
  lemma AcceptedNamesNeedNotCollide()
    ensures exists a, b :: Accepted(a) && Accepted(b) && Hash(a) != Hash(b)
  {
    var p, q := Ones(PREFIX), Ones(247) + [3];
    HashOfOnes();
    HashOfOnesAndThree();
    SteersTo(p);
    SteersTo(q);
    var a, b := p + Tail(LastWord(p)), q + Tail(LastWord(q));
    assert a[..PREFIX] == p && b[..PREFIX] == q;
    BitOneDiffers(Hash(p), Hash(q));
    AcceptedNamesCollideIff(a, b);
  }

  // ---------- the name the kernel sees ----------

  /** The buffer as a C string: up to its first zero byte. */
  function CString(name: seq<bv8>): seq<bv8> {
    if name == [] || name[0] == 0 then [] else [name[0]] + CString(name[1..])
  }

  lemma {:induction false} CStringKeepsNonZero(front: seq<bv8>, back: seq<bv8>)
    requires 0 !in front
    ensures CString(front + back) == front + CString(back)
  {
    if front == [] {
      assert front + back == back;
    } else {
      var whole := front + back;
      assert whole[0] == front[0] && front[0] in front && whole[1..] == front[1..] + back;
      CStringKeepsNonZero(front[1..], back);
      assert CString(whole) == [front[0]] + (front[1..] + CString(back));
    }
  }

  lemma {:induction false} CStringLength(name: seq<bv8>)
    ensures |CString(name)| <= |name|
    ensures 0 in name <==> |CString(name)| < |name|
    ensures 0 !in name ==> CString(name) == name
  {
    if name != [] && name[0] != 0 {
      CStringLength(name[1..]);
      assert name == [name[0]] + name[1..];
    }
  }

  /** A computed byte of zero ends the name early and undoes the steering: what is left hashes as
      the random prefix alone.  Without one the steered hash is the name's hash. */
  lemma HashOfTheMadeName(name: seq<bv8>)
    requires Accepted(name)
    ensures Hash(CString(name)) == if 0 in name[PREFIX..] then Hash(name[..PREFIX]) else Hash(name)
  {
    var prefix, tail := name[..PREFIX], name[PREFIX..];
    assert name == prefix + tail;
    CStringKeepsNonZero(prefix, tail);
    CStringLength(tail);
    if 0 in tail {
      TrailingBytesAreIgnored(prefix, CString(tail));
    }
  }
}
