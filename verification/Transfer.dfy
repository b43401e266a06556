/** The data both ends of a roadrunner transfer agree on: configuration, windows, blocks and packets. */
module Transfer {
  import opened Bytes
  import opened BbCodec

  const MAX_BLOCKSIZE := 1471
  const MAX_WINDOWSIZE := 64
  const SEQUENCE_NUMBER_SPACE_TO_WINDOWSIZE_RATIO := 2
  const DUMMY_END_OF_PACKET: byte := 255
  const NUM_EOF_ACKS := 8

  /** Parameters of a transfer; `key` is present for the encrypted variant. */
  datatype Config = Config(blocksize: nat, windowsize: nat, key: Option<Key>) {
    /** The ranges enforced by the argument checkers of both programs. */
    ghost predicate Valid() {
      && 1 <= blocksize <= MAX_BLOCKSIZE
      && 1 <= windowsize <= MAX_WINDOWSIZE
    }

    /** The size of a full window, `blocksize * windowsize`. */
    function WindowBytes(): (r: nat) { Times(blocksize, windowsize) }
  }

  /** The configurations both programs accept; all numbers of two windows fit into a byte, with half of it to spare. */
  lemma Ranges(cfg: Config)
    ensures cfg.Valid() <==> 1 <= cfg.blocksize <= 1471 && 1 <= cfg.windowsize <= 64
    ensures cfg.Valid() ==> forall n :: 0 <= n < 2 * cfg.windowsize ==> Num(U8(n)) == n < 128
  {
    if cfg.Valid() {
      forall n | 0 <= n < 2 * cfg.windowsize ensures Num(U8(n)) == n < 128 {
        NumOfU8(n);
      }
    }
  }

  /** Multiplication by repeated addition, which spares the proofs nonlinear arithmetic. */
  function Times(n: nat, count: nat): (r: nat)
  {
    if count == 0 then 0 else n + Times(n, count - 1)
  }

  lemma {:induction false} TimesIsProduct(n: nat, count: nat)
    ensures Times(n, count) == n * count
  {
    if count > 0 {
      TimesIsProduct(n, count - 1);
      assert n * count == n + n * (count - 1);
    }
  }

  /** `(initial_sequence_number + windowsize) % (2 * windowsize)`, computed by both sides. */
  function NextBase(cfg: Config, base: nat): (r: nat)
    requires cfg.Valid()
  {
    (base + cfg.windowsize) % (SEQUENCE_NUMBER_SPACE_TO_WINDOWSIZE_RATIO * cfg.windowsize)
  }

  /** The first sequence number of window `k`. */
  function Base(cfg: Config, k: nat): (r: nat)
  {
    if k % 2 == 0 then 0 else cfg.windowsize
  }

  lemma BasesAlternate(cfg: Config, k: nat)
    requires cfg.Valid()
    ensures NextBase(cfg, Base(cfg, k)) == Base(cfg, k + 1)
    ensures Base(cfg, k) + cfg.windowsize <= 128
  {
    var w := cfg.windowsize;
    ModuloUnique(w, 2 * w, 0, w);
    ModuloUnique(2 * w, 2 * w, 1, 0);
  }

  // ---------------------------------------------------------------------------------------------
  // Cutting a sequence into pieces of n, the last one possibly shorter

  function Chunks<T>(n: nat, s: seq<T>): (r: seq<seq<T>>)
    requires n > 0
  {
    if |s| == 0 then []
    else if |s| <= n then [s]
    else [s[..n]] + Chunks(n, s[n..])
  }

  /** Concatenating the pieces gives the sequence back; only the last piece may be short, none is empty. */
  lemma {:induction false} ChunksExact<T>(n: nat, s: seq<T>)
    requires n > 0
    ensures Flatten(Chunks(n, s)) == s
    ensures Chunks(n, s) == [] <==> s == []
    ensures forall i | 0 <= i < |Chunks(n, s)| - 1 :: |Chunks(n, s)[i]| == n
    ensures forall i | 0 <= i < |Chunks(n, s)| :: 1 <= |Chunks(n, s)[i]| <= n
  {
    if |s| > n {
      ChunksExact(n, s[n..]);
      var cs := Chunks(n, s);
      assert cs[1..] == Chunks(n, s[n..]);
      forall i | 1 <= i < |cs| ensures cs[i] == Chunks(n, s[n..])[i - 1] {}
    } else if |s| > 0 {
      assert [s][1..] == [];
    }
  }

  /** At most `count` pieces come out of `count` times `n` elements, and exactly `count` when all are there. */
  lemma {:induction false} ChunkCount<T>(n: nat, s: seq<T>, count: nat)
    requires n > 0
    requires |s| <= Times(n, count)
    ensures |Chunks(n, s)| <= count
    ensures |s| == Times(n, count) ==> |Chunks(n, s)| == count
  {
    if |s| > n {
      ChunkCount(n, s[n..], count - 1);
    } else if count > 1 {
      assert Times(n, count) == n + (n + Times(n, count - 2));
    }
  }

  /** The size of the last piece, by the remainder. */
  lemma {:induction false} LastChunkSize<T>(n: nat, s: seq<T>)
    requires n > 0 && s != []
    ensures Chunks(n, s) != []
    ensures var cs := Chunks(n, s); |cs[|cs| - 1]| == if |s| % n == 0 then n else |s| % n
  {
    if |s| > n {
      LastChunkSize(n, s[n..]);
      SubtractModulus(|s|, n);
      var cs, ds := Chunks(n, s), Chunks(n, s[n..]);
      assert cs[|cs| - 1] == ds[|ds| - 1];
    } else if |s| < n {
      assert |s| % n == |s|;
    }
  }

  lemma SubtractModulus(x: nat, n: nat)
    requires 0 < n <= x
    ensures (x - n) % n == x % n
  {
    var q, r := x / n, x % n;
    assert x == n * q + r;
    assert x - n == n * (q - 1) + r;
    ModuloUnique(x - n, n, q - 1, r);
  }

  /** Encoding a buffer and cutting it up commute. */
  lemma {:induction false} ChunksOfEncoded(n: nat, s: seq<byte>, key: Key)
    requires n > 0
    ensures |Chunks(n, EncodeData(s, key))| == |Chunks(n, s)|
    ensures forall i | 0 <= i < |Chunks(n, s)| ::
              Chunks(n, EncodeData(s, key))[i] == EncodeData(Chunks(n, s)[i], key)
  {
    if |s| > n {
      assert EncodeData(s, key)[..n] == EncodeData(s[..n], key);
      assert EncodeData(s, key)[n..] == EncodeData(s[n..], key);
      ChunksOfEncoded(n, s[n..], key);
    }
  }

  // ---------------------------------------------------------------------------------------------
  // Windows and packets

  /** The windows of a file in order; an empty file is one empty window. */
  function Windows(cfg: Config, file: seq<byte>): (r: seq<seq<byte>>)
    requires cfg.Valid()
  {
    if file == [] then [[]] else Chunks(cfg.WindowBytes(), file)
  }

  function Encrypted(cfg: Config, data: seq<byte>): (r: seq<byte>)
    ensures |r| == |data|
  {
    if cfg.key.Some? then EncodeData(data, cfg.key.value) else data
  }

  function Decrypted(cfg: Config, data: seq<byte>): (r: seq<byte>)
    ensures |r| == |data|
  {
    if cfg.key.Some? then DecodeData(data, cfg.key.value) else data
  }

  /** One datagram: header byte, block, and the dummy byte when the block is full and ends the file. */
  function Packet(num: int, block: seq<byte>, dummy: bool): (r: seq<byte>)
    ensures |r| == 1 + |block| + if dummy then 1 else 0
    ensures dummy ==> r[|r| - 1] == 255
  {
    [U8(num)] + block + if dummy then [DUMMY_END_OF_PACKET] else []
  }

  /** The datagrams that carry the bytes `wire`, numbered from `base`. */
  function PacketsOf(cfg: Config, base: nat, wire: seq<byte>, isEof: bool): (r: seq<seq<byte>>)
    requires cfg.Valid()
    ensures |r| == |Chunks(cfg.blocksize, wire)|
  {
    var blocks := Chunks(cfg.blocksize, wire);
    seq(|blocks|, i requires 0 <= i < |blocks| =>
      Packet(base + i, blocks[i], isEof && i == |blocks| - 1 && |blocks[i]| == cfg.blocksize))
  }

  /** The datagrams of one attempt at sending a window, in sending order. */
  function WindowPackets(cfg: Config, base: nat, data: seq<byte>, isEof: bool): (r: seq<seq<byte>>)
    requires cfg.Valid()
  {
    PacketsOf(cfg, base, Encrypted(cfg, data), isEof)
  }

  function Packets(cfg: Config, file: seq<byte>, k: nat): (r: seq<seq<byte>>)
    requires cfg.Valid() && k < |Windows(cfg, file)|
  {
    WindowPackets(cfg, Base(cfg, k), Windows(cfg, file)[k], k == |Windows(cfg, file)| - 1)
  }

  function Blocks(cfg: Config, file: seq<byte>, k: nat): (r: seq<seq<byte>>)
    requires cfg.Valid() && k < |Windows(cfg, file)|
  {
    Chunks(cfg.blocksize, Windows(cfg, file)[k])
  }

  /** The acknowledgement number that lets the server leave window `k`. */
  function ExpectedAck(cfg: Config, base: nat, packets: nat): (r: byte)
  {
    U8(base + packets - 1)
  }

  /** What a receiver makes of a datagram: `recvfrom` keeps at most B + 2 bytes of it. */
  function Arrived(cfg: Config, raw: seq<byte>): (r: seq<byte>)
    ensures r <= raw && |r| <= cfg.blocksize + 2
    ensures |raw| <= cfg.blocksize + 2 ==> r == raw
    ensures |raw| > cfg.blocksize + 2 ==> |r| == cfg.blocksize + 2
  {
    if |raw| > cfg.blocksize + 2 then raw[..cfg.blocksize + 2] else raw
  }

  function BlockSize(cfg: Config, r: seq<byte>): (n: nat)
    requires r != []
    ensures n <= cfg.blocksize && n < |r|
  {
    if |r| > cfg.blocksize + 1 then cfg.blocksize else |r| - 1
  }

  function Payload(cfg: Config, r: seq<byte>): (b: seq<byte>)
    requires r != []
    ensures |b| == BlockSize(cfg, r)
  {
    Decrypted(cfg, r[1..1 + BlockSize(cfg, r)])
  }

  // ---------------------------------------------------------------------------------------------
  // Segmentation is exact

  lemma WindowFacts(cfg: Config, file: seq<byte>)
    requires cfg.Valid()
    ensures |Windows(cfg, file)| >= 1
    ensures Flatten(Windows(cfg, file)) == file
    ensures file != [] ==> forall k | 0 <= k < |Windows(cfg, file)| :: Windows(cfg, file)[k] != []
    ensures forall k | 0 <= k < |Windows(cfg, file)| - 1 :: |Windows(cfg, file)[k]| == cfg.WindowBytes()
    ensures forall k | 0 <= k < |Windows(cfg, file)| :: |Windows(cfg, file)[k]| <= cfg.WindowBytes()
  {
    assert cfg.WindowBytes() > 0;
    if file == [] {
      assert Flatten([file]) == [] + Flatten([file][1..]);
    } else {
      ChunksExact(cfg.WindowBytes(), file);
    }
  }

  /** Block layout of window `k`: at most W blocks, all W of them unless it is the last window. */
  lemma BlockFacts(cfg: Config, file: seq<byte>, k: nat)
    requires cfg.Valid() && file != [] && k < |Windows(cfg, file)|
    ensures Flatten(Blocks(cfg, file, k)) == Windows(cfg, file)[k]
    ensures 1 <= |Blocks(cfg, file, k)| <= cfg.windowsize
    ensures k < |Windows(cfg, file)| - 1 ==>
              |Blocks(cfg, file, k)| == cfg.windowsize
              && forall i | 0 <= i < |Blocks(cfg, file, k)| :: |Blocks(cfg, file, k)[i]| == cfg.blocksize
    ensures forall i | 0 <= i < |Blocks(cfg, file, k)| - 1 :: |Blocks(cfg, file, k)[i]| == cfg.blocksize
    ensures forall i | 0 <= i < |Blocks(cfg, file, k)| :: 1 <= |Blocks(cfg, file, k)[i]| <= cfg.blocksize
    ensures |Packets(cfg, file, k)| == |Blocks(cfg, file, k)|
  {
    WindowFacts(cfg, file);
    var data := Windows(cfg, file)[k];
    ChunksExact(cfg.blocksize, data);
    ChunkCount(cfg.blocksize, data, cfg.windowsize);
    if k < |Windows(cfg, file)| - 1 {
      LastChunkSize(cfg.blocksize, data);
      TimesIsProduct(cfg.blocksize, cfg.windowsize);
      ModuloUnique(|data|, cfg.blocksize, cfg.windowsize, 0);
    }
    if cfg.key.Some? {
      ChunksOfEncoded(cfg.blocksize, data, cfg.key.value);
    }
  }

  lemma PacketBlock(cfg: Config, file: seq<byte>, k: nat, i: nat)
    requires cfg.Valid() && file != [] && k < |Windows(cfg, file)|
    requires i < |Blocks(cfg, file, k)|
    ensures |Packets(cfg, file, k)| == |Blocks(cfg, file, k)|
    ensures var block := Blocks(cfg, file, k)[i];
            Packets(cfg, file, k)[i]
            == Packet(Base(cfg, k) + i, Encrypted(cfg, block), EndsFile(cfg, file, k, i) && |block| == cfg.blocksize)
  {
    if cfg.key.Some? {
      ChunksOfEncoded(cfg.blocksize, Windows(cfg, file)[k], cfg.key.value);
    }
  }

  /** Block `i` of window `k` is the last block of the file. */
  predicate EndsFile(cfg: Config, file: seq<byte>, k: nat, i: nat)
    requires cfg.Valid() && k < |Windows(cfg, file)|
  {
    k == |Windows(cfg, file)| - 1 && i == |Blocks(cfg, file, k)| - 1
  }

  lemma DecryptedEncrypted(cfg: Config, data: seq<byte>)
    ensures Decrypted(cfg, Encrypted(cfg, data)) == data
  {
    if cfg.key.Some? && data != [] {
      DataRoundTripIff(data, cfg.key.value, cfg.key.value);
    }
  }

  /** What a receiver reads in a packet. */
  lemma PacketContents(cfg: Config, num: nat, block: seq<byte>, dummy: bool)
    requires num < 256 && 1 <= |block| <= cfg.blocksize && (dummy ==> |block| == cfg.blocksize)
    ensures var r := Packet(num, Encrypted(cfg, block), dummy);
            |r| == 1 + |block| + (if dummy then 1 else 0) && Num(r[0]) == num && Payload(cfg, r) == block
  {
    var r := Packet(num, Encrypted(cfg, block), dummy);
    NumOfU8(num);
    DecryptedEncrypted(cfg, block);
    assert r[1..1 + BlockSize(cfg, r)] == Encrypted(cfg, block);
  }

  /** Packet `i` of window `k` says where it belongs, carries block `i`, and its length marks the end of file. */
  lemma PacketFacts(cfg: Config, file: seq<byte>, k: nat, i: nat)
    requires cfg.Valid() && file != [] && k < |Windows(cfg, file)|
    requires i < |Packets(cfg, file, k)|
    ensures i < |Blocks(cfg, file, k)| == |Packets(cfg, file, k)|
    ensures var r := Packets(cfg, file, k)[i];
            && 1 <= |r| <= cfg.blocksize + 2
            && Num(r[0]) == Base(cfg, k) + i
            && Payload(cfg, r) == Blocks(cfg, file, k)[i]
            && (|r| != cfg.blocksize + 1 <==> EndsFile(cfg, file, k, i))
  {
    BlockFacts(cfg, file, k);
    PacketBlock(cfg, file, k, i);
    BasesAlternate(cfg, k);
    var block := Blocks(cfg, file, k)[i];
    NumberedContents(cfg, Packets(cfg, file, k)[i], Base(cfg, k) + i, block, EndsFile(cfg, file, k, i));
  }

  /** The length of a packet tells whether it is the last one. */
  lemma NumberedContents(cfg: Config, r: seq<byte>, num: nat, block: seq<byte>, last: bool)
    requires num < 256 && 1 <= |block| <= cfg.blocksize && (!last ==> |block| == cfg.blocksize)
    requires r == Packet(num, Encrypted(cfg, block), last && |block| == cfg.blocksize)
    ensures 1 <= |r| <= cfg.blocksize + 2 && Num(r[0]) == num && Payload(cfg, r) == block
    ensures |r| != cfg.blocksize + 1 <==> last
  {
    PacketContents(cfg, num, block, last && |block| == cfg.blocksize);
  }
}
