/** The whole transfer as one sequence of packets: segmentation loses nothing, and the end of the file is marked once. */
module Segmentation {
  import opened Bytes
  import opened Transfer

  function PacketsByWindow(cfg: Config, file: seq<byte>): (r: seq<seq<seq<byte>>>)
    requires cfg.Valid()
    ensures |r| == |Windows(cfg, file)|
  {
    seq(|Windows(cfg, file)|, k requires 0 <= k < |Windows(cfg, file)| => Packets(cfg, file, k))
  }

  /** All packets of a file, each sent once, in order. */
  function Transmission(cfg: Config, file: seq<byte>): (r: seq<seq<byte>>)
    requires cfg.Valid()
  {
    Flatten(PacketsByWindow(cfg, file))
  }

  ghost predicate NoneEmpty(packets: seq<seq<byte>>) {
    forall i :: 0 <= i < |packets| ==> packets[i] != []
  }

  function Payloads(cfg: Config, packets: seq<seq<byte>>): (r: seq<seq<byte>>)
    requires NoneEmpty(packets)
    ensures |r| == |packets|
  {
    seq(|packets|, i requires 0 <= i < |packets| => Payload(cfg, packets[i]))
  }

  /** Only the last of the packets has a length other than B + 1, and only if they are `complete`. */
  ghost predicate MarksEnd(cfg: Config, packets: seq<seq<byte>>, complete: bool) {
    forall i :: 0 <= i < |packets| ==> (|packets[i]| != cfg.blocksize + 1 <==> complete && i == |packets| - 1)
  }

  lemma WindowPayloads(cfg: Config, file: seq<byte>, k: nat)
    requires cfg.Valid() && file != [] && k < |Windows(cfg, file)|
    ensures NoneEmpty(Packets(cfg, file, k)) && Packets(cfg, file, k) != []
    ensures Flatten(Payloads(cfg, Packets(cfg, file, k))) == Windows(cfg, file)[k]
    ensures MarksEnd(cfg, Packets(cfg, file, k), k == |Windows(cfg, file)| - 1)
  {
    BlockFacts(cfg, file, k);
    var packets, blocks := Packets(cfg, file, k), Blocks(cfg, file, k);
    forall i | 0 <= i < |packets|
      ensures packets[i] != [] && Payload(cfg, packets[i]) == blocks[i]
      ensures |packets[i]| != cfg.blocksize + 1 <==> k == |Windows(cfg, file)| - 1 && i == |packets| - 1
    {
      PacketFacts(cfg, file, k, i);
    }
    assert Payloads(cfg, packets) == blocks;
  }

  lemma PayloadsAppend(cfg: Config, a: seq<seq<byte>>, b: seq<seq<byte>>)
    requires NoneEmpty(a) && NoneEmpty(b)
    ensures NoneEmpty(a + b) && Payloads(cfg, a + b) == Payloads(cfg, a) + Payloads(cfg, b)
  {
  }

  lemma OneMoreWindow(cfg: Config, before: seq<seq<byte>>, own: seq<seq<byte>>, windows: seq<seq<byte>>, k: nat)
    requires k < |windows| && NoneEmpty(before) && NoneEmpty(own)
    requires Flatten(Payloads(cfg, before)) == Flatten(windows[..k])
    requires Flatten(Payloads(cfg, own)) == windows[k]
    ensures NoneEmpty(before + own)
    ensures Flatten(Payloads(cfg, before + own)) == Flatten(windows[..k + 1])
  {
    PayloadsAppend(cfg, before, own);
    FlattenAppend(Payloads(cfg, before), Payloads(cfg, own));
    FlattenSnoc(windows, k);
  }

  lemma MarksEndAppend(cfg: Config, before: seq<seq<byte>>, own: seq<seq<byte>>, complete: bool)
    requires MarksEnd(cfg, before, false) && MarksEnd(cfg, own, complete) && own != []
    ensures MarksEnd(cfg, before + own, complete)
  {
    var packets := before + own;
    forall i | 0 <= i < |packets|
      ensures |packets[i]| != cfg.blocksize + 1 <==> complete && i == |packets| - 1
    {
      if i >= |before| {
        assert packets[i] == own[i - |before|];
      } else {
        assert packets[i] == before[i];
      }
    }
  }

  /** What is known of the packets that carry the first `k` windows. */
  ghost predicate CarriesWindows(cfg: Config, packets: seq<seq<byte>>, windows: seq<seq<byte>>, k: nat)
    requires k <= |windows|
  {
    && NoneEmpty(packets)
    && Flatten(Payloads(cfg, packets)) == Flatten(windows[..k])
    && MarksEnd(cfg, packets, k == |windows|)
  }

  /** The packets `own` carry exactly window `k`. */
  ghost predicate CarriesWindow(cfg: Config, own: seq<seq<byte>>, windows: seq<seq<byte>>, k: nat)
    requires k < |windows|
  {
    own != [] && NoneEmpty(own) && Flatten(Payloads(cfg, own)) == windows[k] && MarksEnd(cfg, own, k == |windows| - 1)
  }

  lemma CarriesOneMore(cfg: Config, before: seq<seq<byte>>, own: seq<seq<byte>>, windows: seq<seq<byte>>, k: nat)
    requires k < |windows| && CarriesWindows(cfg, before, windows, k)
    requires CarriesWindow(cfg, own, windows, k)
    ensures CarriesWindows(cfg, before + own, windows, k + 1)
  {
    OneMoreWindow(cfg, before, own, windows, k);
    MarksEndAppend(cfg, before, own, k == |windows| - 1);
  }

  lemma {:induction false} CarriesPrefix(cfg: Config, lists: seq<seq<seq<byte>>>, windows: seq<seq<byte>>, n: nat)
    requires n <= |lists| == |windows| && windows != []
    requires forall k :: 0 <= k < |lists| ==> CarriesWindow(cfg, lists[k], windows, k)
    ensures CarriesWindows(cfg, Flatten(lists[..n]), windows, n)
  {
    if n > 0 {
      CarriesPrefix(cfg, lists, windows, n - 1);
      CarriesOneMore(cfg, Flatten(lists[..n - 1]), lists[n - 1], windows, n - 1);
      FlattenSnoc(lists, n - 1);
    }
  }

  /** For every file that is not empty and every configuration: the payloads of all packets, decoded and concatenated,
      are the file, and exactly one packet, the last, has a length other than B + 1. */
  lemma SegmentationIsExact(cfg: Config, file: seq<byte>)
    requires cfg.Valid() && file != []
    ensures var packets := Transmission(cfg, file);
            NoneEmpty(packets) && Flatten(Payloads(cfg, packets)) == file && MarksEnd(cfg, packets, true)
  {
    var lists, windows := PacketsByWindow(cfg, file), Windows(cfg, file);
    WindowFacts(cfg, file);
    forall k | 0 <= k < |lists| ensures CarriesWindow(cfg, lists[k], windows, k) {
      WindowPayloads(cfg, file, k);
    }
    CarriesPrefix(cfg, lists, windows, |lists|);
    assert lists[..|lists|] == lists && windows[..|windows|] == windows;
  }

  // ---------------------------------------------------------------------------------------------
  // How many packets there are, and how long the last one is

  /** Each packet has a block, and one with B + 2 bytes ends with the byte 255. */
  ghost predicate InForm(cfg: Config, packets: seq<seq<byte>>) {
    forall i :: 0 <= i < |packets| ==>
      2 <= |packets[i]| <= cfg.blocksize + 2
      && (|packets[i]| == cfg.blocksize + 2 ==> packets[i][cfg.blocksize + 1] == 255)
  }

  lemma PacketInForm(cfg: Config, num: int, block: seq<byte>, dummy: bool)
    requires 1 <= |block| <= cfg.blocksize && (dummy ==> |block| == cfg.blocksize)
    ensures InForm(cfg, [Packet(num, block, dummy)])
  {
  }

  lemma WindowInForm(cfg: Config, file: seq<byte>, k: nat)
    requires cfg.Valid() && file != [] && k < |Windows(cfg, file)|
    ensures InForm(cfg, Packets(cfg, file, k))
  {
    BlockFacts(cfg, file, k);
    var packets, blocks := Packets(cfg, file, k), Blocks(cfg, file, k);
    forall i | 0 <= i < |packets| ensures InForm(cfg, [packets[i]]) {
      PacketBlock(cfg, file, k, i);
      PacketInForm(cfg, Base(cfg, k) + i, Encrypted(cfg, blocks[i]),
                   EndsFile(cfg, file, k, i) && |blocks[i]| == cfg.blocksize);
    }
    AllInForm(cfg, packets);
  }

  lemma AllInForm(cfg: Config, packets: seq<seq<byte>>)
    requires forall i :: 0 <= i < |packets| ==> InForm(cfg, [packets[i]])
    ensures InForm(cfg, packets)
  {
    forall i | 0 <= i < |packets|
      ensures 2 <= |packets[i]| <= cfg.blocksize + 2
      ensures |packets[i]| == cfg.blocksize + 2 ==> packets[i][cfg.blocksize + 1] == 255
    {
      assert InForm(cfg, [packets[i]]);
      assert [packets[i]][0] == packets[i];
    }
  }

  lemma {:induction false} FlattenInForm(cfg: Config, lists: seq<seq<seq<byte>>>)
    requires forall k :: 0 <= k < |lists| ==> InForm(cfg, lists[k])
    ensures InForm(cfg, Flatten(lists))
  {
    if lists != [] {
      FlattenInForm(cfg, lists[1..]);
    }
  }

  /** The size of pieces of which all but the last have `n` bytes. */
  lemma {:induction false} FlattenSize(pieces: seq<seq<byte>>, n: nat)
    requires pieces != [] && forall i :: 0 <= i < |pieces| - 1 ==> |pieces[i]| == n
    ensures |Flatten(pieces)| == n * (|pieces| - 1) + |pieces[|pieces| - 1]|
  {
    if |pieces| > 1 {
      FlattenSize(pieces[1..], n);
      assert n * (|pieces| - 1) == n + n * (|pieces| - 2);
    } else {
      assert pieces[1..] == [];
    }
  }

  /** What the size of a packet says about its payload. */
  lemma PayloadSize(cfg: Config, packet: seq<byte>)
    requires packet != []
    ensures |Payload(cfg, packet)| == if |packet| - 1 <= cfg.blocksize then |packet| - 1 else cfg.blocksize
  {
  }

  lemma LastSize(size: nat, b: nat, full: nat, last: nat)
    requires size == b * full + last && 1 <= last <= b
    ensures last == if size % b == 0 then b else size % b
  {
    if last < b {
      ModuloUnique(size, b, full, last);
    } else {
      assert size == b * (full + 1);
      ModuloUnique(size, b, full + 1, 0);
    }
  }

  /** The sizes of payloads by the lengths of packets. */
  lemma PayloadSizes(cfg: Config, packets: seq<seq<byte>>)
    requires NoneEmpty(packets)
    ensures forall i :: 0 <= i < |packets| ==>
              |Payloads(cfg, packets)[i]|
                == if |packets[i]| - 1 <= cfg.blocksize then |packets[i]| - 1 else cfg.blocksize
  {
    forall i | 0 <= i < |packets|
      ensures |Payloads(cfg, packets)[i]|
           == if |packets[i]| - 1 <= cfg.blocksize then |packets[i]| - 1 else cfg.blocksize
    {
      PayloadSize(cfg, packets[i]);
    }
  }

  /** The size of the file by the number of packets and the length of the last one. */
  lemma SizeOfFile(cfg: Config, file: seq<byte>, packets: seq<seq<byte>>)
    requires file != [] && NoneEmpty(packets) && Flatten(Payloads(cfg, packets)) == file
    requires MarksEnd(cfg, packets, true) && InForm(cfg, packets)
    ensures packets != []
    ensures var last := |packets[|packets| - 1]|;
            |file| == cfg.blocksize * (|packets| - 1) + if last <= cfg.blocksize then last - 1 else cfg.blocksize
  {
    PayloadSizes(cfg, packets);
    FlattenSize(Payloads(cfg, packets), cfg.blocksize);
  }

  lemma LengthOfLast(b: nat, full: nat, length: nat, size: nat)
    requires b > 0 && 2 <= length <= b + 2 && length != b + 1
    requires size == b * full + if length <= b then length - 1 else b
    ensures length == if size % b == 0 then b + 2 else 1 + size % b
    ensures b * full < size <= b * (full + 1)
  {
    LastSize(size, b, full, if length <= b then length - 1 else b);
    assert b * (full + 1) == b * full + b;
  }

  lemma TransmissionInForm(cfg: Config, file: seq<byte>)
    requires cfg.Valid() && file != []
    ensures InForm(cfg, Transmission(cfg, file))
  {
    var lists := PacketsByWindow(cfg, file);
    forall k | 0 <= k < |lists| ensures InForm(cfg, lists[k]) {
      WindowInForm(cfg, file, k);
    }
    FlattenInForm(cfg, lists);
  }

  /** The transmission of a file that is not empty: all packets but the last have B + 1 bytes. The last one has a byte
      for its number and the remaining bytes of the file or, when the file ends with a full block, B + 2 bytes of which
      the last is 255. */
  lemma EndMark(cfg: Config, file: seq<byte>)
    requires cfg.Valid() && file != []
    ensures var packets, b := Transmission(cfg, file), cfg.blocksize;
            && packets != [] && (forall i :: 0 <= i < |packets| - 1 ==> |packets[i]| == b + 1)
            && b * (|packets| - 1) < |file| <= b * |packets|
            && var last := packets[|packets| - 1];
               if |file| % b == 0 then |last| == b + 2 && last[b + 1] == 255 else |last| == 1 + |file| % b
  {
    var packets := Transmission(cfg, file);
    SegmentationIsExact(cfg, file);
    TransmissionInForm(cfg, file);
    SizeOfFile(cfg, file, packets);
    LengthOfLast(cfg.blocksize, |packets| - 1, |packets[|packets| - 1]|, |file|);
  }
}
